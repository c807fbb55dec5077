# Maze explorers and parallel-processing helpers, modelled in Dafny

This project models two parts of a Python lab repository.

**The maze explorers.** Two `Explorer` classes solve a grid maze:
- `src/enhanced.py` moves orthogonally. It uses four neighbours, unit step cost and the Manhattan heuristic.
- `src/diagonal_enhanced.py` moves like a king. It uses eight neighbours, step cost 1 or 1.4142 and the octile heuristic.

Each explorer runs an A* search from its position to the maze's end. When the search finds a route, the explorer walks it. When it finds none, the explorer falls back on backtracking along a *recovery path*:
- If the last recorded junction (a cell with more than two free neighbours) is among the visited cells, the path is the visited cells from that junction on, reversed.
- Otherwise the visited cells are scanned from the last one back until one with more than one free neighbour is found.

**The small helpers of the parallel benchmarks.** These are `seq_square`, `pool_square` and `chunker` in `src/functions.py`, and `split_population` and `flatten` in `src/utility_functions.py`.

## Modules

- `Wrappers`: `Option`, `Result` and the two Python exceptions the helpers can raise.
- `Seqs`: sequence helpers: reversal, first index, no duplicates, concatenation.
- `Grid`: the maze (`width`, `height`, `grid[y][x]` with 0 for a free cell, start and end), the two movement models and their neighbour offsets in source order, step costs, heuristics, the free-neighbour counter, and paths with their cost.
  - Octile costs are fixed point ×10000: an orthogonal step costs 10000, a diagonal step 14142, and the heuristic is `10000·max + 4142·min`.
- `AStar`: the search both explorers share.
  - The open set is a list of `(f, cell)` entries. The least entry in Python's tuple order is popped, as `heapq` does.
  - A cell popped again after it was closed is re-expanded, as in the source.
  - Proved: a returned path is valid and of least cost; `None` is returned exactly when no path exists; any junction reported is a junction.
  - The proof does not depend on the heuristic itself: the search runs for any consistent heuristic, and both heuristics are proved consistent.
- `Recovery`: `count_available_choices` and `find_backtrack_path` for either movement model, plus the properties of the recovery path.
- `Explorers`: the three-slot move history (`deque(maxlen=3)`), the junction a replayed route leaves, and the ways `solve` can end.
- `Enhanced`, `DiagonalEnhanced`: one `Explorer` class each. The class has the source's fields, and its methods update them in place.
- `Partition`: the partition that `chunker` and `split_population` both compute.
  - There are `n` consecutive chunks. The first `len % n` chunks hold `len // n + 1` elements and the rest hold `len // n`.
  - `//` and `%` follow Python's floor semantics.
- `Functions`, `UtilityFunctions`: the helpers themselves.

The backtracking loop of `solve` need not terminate, so `Solve` takes a step budget `fuel` and reports `OutOfSteps` when it runs out:
- When the search fails, the end is unreachable.
- If a recovery path exists, backtracking walks it, empties it, recomputes the same path from the unchanged moves and junction, and walks it again.
- `Solve` proves that in this case (the recovery path recomputed from the moves and junction is non-empty and avoids the end, and the end is not on the pending recovery path either) the loop is still running whatever the budget.

## Model

| member | source | states |
|---|---|---|
| Grid.OffsetsAreMoves | src/diagonal_enhanced.py:111-112 | the neighbour offsets are pairwise distinct and are exactly the moves of the model (4 unit steps, or 8 king moves) |
| Grid.StepCost | src/diagonal_enhanced.py:142-143 | every step has a positive cost; in the octile model (costs scaled by 10000) a step costs at least 10000 (1.0), and 14142 (1.4142) exactly when both components are nonzero |
| Grid.Heuristic | src/diagonal_enhanced.py:106-109 | Manhattan distance `dx + dy` in the orthogonal model (the `heuristic` at lines 178-179 of src/enhanced.py), octile distance `10000·max(dx, dy) + 4142·min(dx, dy)` in the octile model (costs scaled by 10000); either lies between the larger axis distance and, respectively, twice it or 1.4142 times it |
| Grid.HeuristicBasics | src/enhanced.py:178-179 | the heuristic is symmetric and is zero exactly on the goal itself |
| Grid.HeuristicConsistent | src/diagonal_enhanced.py:106-109 | one move lowers the Manhattan or octile heuristic by at most that move's cost |
| Grid.OctileStep | src/diagonal_enhanced.py:109 | the octile distance grows by at most one step's cost when each axis distance grows by at most one |
| Grid.HeuristicToConsistent | src/enhanced.py:178-179 | the heuristic towards a fixed goal is a consistent heuristic for its model |
| Grid.ConsistentAlongPath | src/enhanced.py:178-179 | along any path, a consistent heuristic drops by at most the path's cost |
| Grid.HeuristicAdmissible | src/diagonal_enhanced.py:106-109 | the heuristic never exceeds the cost of any valid path from the cell to the goal |
| Grid.Choices | src/diagonal_enhanced.py:32-44 | the free-neighbour count is at most 4 in the orthogonal model and at most 8 in the octile one |
| Grid.ChoicesCountsFreeNeighbours | src/enhanced.py:116-126 | the counter equals the number of distinct free, in-bounds neighbour cells |
| Grid.CountFreeIsCardinality | src/enhanced.py:120-125 | over distinct offsets, the counter equals the size of the set of free cells they lead to |
| Grid.CountFreePositive | src/enhanced.py:122-125 | an offset leading to a free cell makes the count positive |
| Grid.CostSplit | src/diagonal_enhanced.py:143 | the cost of a path is its cost up to any cell plus its cost from there |
| Grid.OrthogonalCostIsLength | src/enhanced.py:213 | with unit steps, a path costs its number of steps |
| AStar.PopMin | src/enhanced.py:188 | `heappop` returns an entry of the heap no greater than any other in `(f, x, y)` order, and leaves the rest as a multiset |
| AStar.Reconstruct | src/enhanced.py:191-196 | following `came_from` back from the goal and reversing gives a valid path from start to goal that costs exactly `g[goal]` |
| AStar.PrependStep | src/enhanced.py:193-195 | one more `came_from` link prepends a step to the reversed path and adds its step cost |
| AStar.PoppedIsOptimal | src/enhanced.py:187-191 | under the search invariant and a consistent heuristic, the popped cell's `g` is no more than the cost of any path to it |
| AStar.ExhaustedMeansUnreachable | src/enhanced.py:226 | when the open set is empty, with every closed cell relaxed, no valid path reaches the goal |
| AStar.Expand | src/enhanced.py:201-223 | expanding the closed cell keeps the cost accounting and the frontier, relaxes all its neighbours and leaves closed cells' `g` unchanged; re-expanding a relaxed cell leaves `g`, `came_from`, the heap and the junction unchanged; a recorded junction is one |
| AStar.Visit | src/enhanced.py:202-219 | a neighbour out of bounds, a wall or closed is skipped, and one no cheaper through the current cell is left alone: then `g`, `came_from`, the heap and the junction are all unchanged; otherwise it is relaxed, and the invariants are kept |
| AStar.ExpandStep | src/enhanced.py:201-223 | one pass of the neighbour loop keeps the loop's invariants, one more offset relaxed, and changes nothing when the cell had been relaxed already |
| AStar.Relax | src/enhanced.py:215-223 | updating `came_from`, `g_score` and the heap for an improved neighbour keeps every invariant; the junction becomes exactly the neighbour when the neighbour is a junction, and otherwise stays as it was |
| AStar.CloseAndExpand | src/enhanced.py:198-223 | closing the popped cell and expanding it keeps the search invariant, and either shrinks the set of cells left to close or shrinks the heap |
| AStar.CloseShrinks | src/diagonal_enhanced.py:130 | closing a free cell (or the start) not closed before shrinks the set of cells left to close |
| AStar.Run | src/diagonal_enhanced.py:114-153 | the search loop under any consistent heuristic returns a valid least-cost path, or `None` exactly when no path exists |
| AStar.Search | src/enhanced.py:167-226 | `astar(start, goal)` returns a valid path of least cost, or `None` only when no path exists; the reported junction is old or is a junction |
| Recovery.CountAvailableChoices | src/enhanced.py:116-126 | the counter loop computes the number of free, in-bounds neighbours under the model |
| Recovery.FindBacktrackPath | src/enhanced.py:89-114 | the method, with its `visited` set and early return, computes the recovery path |
| Recovery.JunctionPathShape | src/enhanced.py:97-101 | with the junction among the moves, the path walks the moves backwards one at a time, from the last move to the junction's first occurrence |
| Recovery.ScanExtends | src/enhanced.py:105-113 | the fallback scan only appends to what it has taken |
| Recovery.ScanNoDuplicates | src/enhanced.py:107-110 | the fallback scan never takes a cell twice |
| Recovery.ScanWithin | src/enhanced.py:105-110 | the fallback scan takes only visited cells |
| Recovery.ScanChoices | src/enhanced.py:110-113 | every cell taken before the last has at most one free neighbour |
| Recovery.ScanCovers | src/enhanced.py:105-114 | the scan stops only at a cell with more than one free neighbour; otherwise it has taken every visited cell |
| Recovery.ScanStartsAtLastMove | src/enhanced.py:105-110 | with some moves, the scan takes the last move first |
| Recovery.FallbackPathCells | src/enhanced.py:103-114 | the fallback path has no repeats, holds only visited cells, is empty exactly when nothing was visited, and ends at the last move |
| Recovery.FallbackPathStops | src/enhanced.py:103-114 | on the fallback path only the first cell may have more than one free neighbour; if it has not, every visited cell is on the path |
| Explorers.DequeAppend | src/enhanced.py:21 | appending to the `maxlen=3` deque grows a shorter one by the new entry; a full one drops its oldest entry, keeping three: the old last entries followed by the new one |
| Explorers.DequeHoldsRecent | src/enhanced.py:56-57 | the deque always holds the last (up to) three moves of `moves` |
| Explorers.ReplayedJunction | src/enhanced.py:250-252 | after replaying some cells the junction is the old one or a junction among those cells |
| Explorers.ReplayedJunctionNone | src/enhanced.py:250-252 | with no junction among the replayed cells, the junction is left as it was |
| Explorers.ReplayedJunctionIsLast | src/enhanced.py:245-252 | with some junction among the replayed cells, the junction is the last of them: no later replayed cell is a junction |
| Enhanced.TurnedRight | src/enhanced.py:32-35 | a right turn keeps the step length |
| Enhanced.TurnIsQuarter | src/enhanced.py:32-35 | a right turn is perpendicular to the old facing and lies clockwise of it |
| Enhanced.TurnedLeft | src/enhanced.py:37-40 | a right turn undoes a left turn |
| Enhanced.TurnsKeepMoves | src/enhanced.py:32-40 | turning keeps the facing a unit orthogonal step |
| Enhanced.FourRightTurns | src/enhanced.py:32-40 | left undoes right, a left turn is three right turns, and four right turns face the original way |
| Enhanced.Explorer.constructor | src/enhanced.py:13-25 | the explorer starts at the maze's start, facing right, with no moves, history, recovery path, backtracks or junction |
| Enhanced.Explorer.TurnRight | src/enhanced.py:32-35 | the facing turns right, nothing else changes, and the invariant is kept |
| Enhanced.Explorer.TurnLeft | src/enhanced.py:37-40 | the facing turns left, nothing else changes, and the invariant is kept |
| Enhanced.Explorer.CanMoveForward | src/enhanced.py:42-48 | true exactly when the cell ahead is in bounds and free; then the current cell has a free neighbour |
| Enhanced.Explorer.Record | src/enhanced.py:56-57 | `moves` grows by the cell and the deque holds the last three moves; nothing else changes |
| Enhanced.Explorer.MoveForward | src/enhanced.py:50-57 | the explorer steps along its facing without a wall check, the new cell is appended to `moves`, and the deque keeps the last three moves |
| Enhanced.Explorer.IsStuck | src/enhanced.py:61-66 | true exactly when there are at least three moves and the last three are equal |
| Enhanced.Explorer.CountAvailableChoices | src/enhanced.py:116-126 | the free orthogonal neighbours of the cell, at most 4 |
| Enhanced.Explorer.FindBacktrackPath | src/enhanced.py:89-114 | the recovery path of the current moves and junction |
| Enhanced.Explorer.Backtrack | src/enhanced.py:68-87 | an empty pending path is first recomputed; true exactly when a path exists, and then the explorer steps onto its first cell, which is removed, and the counter goes up; otherwise nothing changes |
| Enhanced.Explorer.Astar | src/enhanced.py:167-226 | a shortest orthogonal path from start to goal, or `None` exactly when none exists; only the junction may change, and only to a junction |
| Enhanced.Explorer.ReplayStep | src/enhanced.py:245-252 | one replay step moves onto the cell, records it, and records it as the junction exactly when it has more than two free neighbours |
| Enhanced.Explorer.Replay | src/enhanced.py:245-252 | walking the route after its first cell appends those cells to `moves`, ends on the route's last cell, and leaves as the junction the last replayed cell with more than two free neighbours, or the old junction if there is none |
| Enhanced.Explorer.Solve | src/enhanced.py:228-277 | a found route is shortest and is walked to the end with no backtracking step, and the junction is the last one on it or the one the search left; with none, no path exists, the moves are unchanged, the backtrack counter grows by at most `fuel`, and backtracking stops at the end, at an empty recovery path, or never (when the end is neither on the recovery path of the unchanged moves and junction nor on the pending recovery path); the facing never changes |
| DiagonalEnhanced.Explorer.constructor | src/diagonal_enhanced.py:13-25 | the explorer starts at the maze's start with nothing recorded |
| DiagonalEnhanced.Explorer.CountAvailableChoices | src/diagonal_enhanced.py:32-44 | the free king-move neighbours of the cell, at most 8 |
| DiagonalEnhanced.Explorer.FindBacktrackPath | src/diagonal_enhanced.py:76-91 | the recovery path of the current moves and junction under king moves |
| DiagonalEnhanced.Explorer.Backtrack | src/diagonal_enhanced.py:93-103 | as for the orthogonal explorer: a step along the (recomputed if empty) recovery path, or no change and false |
| DiagonalEnhanced.Explorer.Astar | src/diagonal_enhanced.py:105-153 | a cheapest king-move path from start to goal, or `None` exactly when none exists; only the junction may change, and only to a junction |
| DiagonalEnhanced.Explorer.Record | src/diagonal_enhanced.py:162-163 | `moves` grows by the cell and the deque holds the last three moves; nothing else changes |
| DiagonalEnhanced.Explorer.ReplayStep | src/diagonal_enhanced.py:160-165 | one replay step moves onto the cell, records it, and records it as the junction exactly when it has more than two free neighbours |
| DiagonalEnhanced.Explorer.Replay | src/diagonal_enhanced.py:160-165 | walking the route after its first cell appends those cells to `moves`, ends on its last cell, and leaves as the junction the last replayed junction, or the old one if there is none |
| DiagonalEnhanced.Explorer.Solve | src/diagonal_enhanced.py:155-184 | a found route is cheapest and is walked to the end with no backtracking step, and the junction is the last one on it or the one the search left; with none, no path exists, the moves are unchanged, and backtracking counts and ends as for the orthogonal explorer |
| Partition.FloorMod | src/functions.py:54-55 | Python's `%` has the sign of the divisor and satisfies `a == b * (a // b) + a % b` |
| Partition.Sizes | src/utility_functions.py:5-7 | `count` sizes of `q`, the first `extra` bumped by one, summing to `count·q + min(extra, count)` |
| Partition.SizesUnbumped | src/utility_functions.py:5 | the initial size list is the partition with nothing bumped |
| Partition.SizesBumped | src/utility_functions.py:6-7 | bumping the next size in place gives one more bumped size |
| Partition.ChunkSizes | src/functions.py:54-61 | there are `n` sizes summing to `len`; the first `len % n` are `len // n + 1` and the rest `len // n` |
| Partition.ChunkSizesBalanced | src/functions.py:61 | the chunk sizes differ by at most one, larger ones first |
| Partition.SplitShape | src/functions.py:57-65 | one chunk per size, each of its size, and concatenated they give back the data in order |
| Partition.SplitNext | src/functions.py:61-63 | the next chunk is the slice from the running start of the next size's length |
| Partition.NextChunk | src/functions.py:62 | appending the next slice keeps the chunks a prefix of the split |
| Partition.ChunksDone | src/functions.py:60-65 | after the last size the chunks are the whole split |
| Functions.SeqSquare | src/functions.py:3-13 | the square is non-negative, at least the number, and zero exactly for zero |
| Functions.PoolSquare | src/functions.py:29-41 | one square per element, in order |
| Functions.PoolSquareAppend | src/functions.py:41 | squaring commutes with concatenation |
| Functions.PoolSquareChunks | src/functions.py:29-41 | squaring chunks separately and joining the results squares the whole data |
| Functions.Chunker | src/functions.py:43-65 | a zero count raises `ZeroDivisionError`, a negative count gives no chunks, and a positive one gives the balanced partition |
| UtilityFunctions.SplitPopulation | src/utility_functions.py:3-12 | the same outcome as `chunker` for every count: division by zero for 0, no chunks for a negative count, the balanced partition otherwise |
| UtilityFunctions.PopulationChunkSizes | src/utility_functions.py:5-7 | the comprehension and the bump loop compute the balanced sizes (none for a negative count) |
| UtilityFunctions.CutBySizes | src/utility_functions.py:8-11 | cutting at the running index gives the split at those sizes |
| UtilityFunctions.Join | src/utility_functions.py:22-23 | two flattenings in turn succeed exactly when both do, with the values concatenated |
| UtilityFunctions.Flatten | src/utility_functions.py:14-27 | `flatten(data)` yields the integer leaves left to right, or the error of the first unsupported leaf |
| UtilityFunctions.FlattenInto | src/utility_functions.py:18-25 | `_flatten(x)` appends the leaves of `x` to the shared list, or fails |
| UtilityFunctions.FlatAllAppend | src/utility_functions.py:22-23 | flattening a concatenation of item lists joins their flattenings |
| UtilityFunctions.FlatAllSingle | src/utility_functions.py:22-23 | a one-item list flattens as its item |
| UtilityFunctions.JoinAssociative | src/utility_functions.py:22-23 | joining flattenings is associative, errors included |
| UtilityFunctions.FlatPair | src/utility_functions.py:21-23 | a two-item list flattens to the first item's leaves followed by the second's |
| UtilityFunctions.FlatOfInts | src/utility_functions.py:19-23 | a flat list of integers flattens to those integers in order |
| UtilityFunctions.FlatAllOfInts | src/utility_functions.py:19-23 | items that are integers flatten to those integers in order |
| UtilityFunctions.FlatFailsOnUnsupported | src/utility_functions.py:24-25 | flattening fails exactly when some leaf is neither an integer nor a list, and then with `TypeError` |
| UtilityFunctions.FlatAllFailsOnUnsupported | src/utility_functions.py:21-25 | a list of items fails exactly when one of them has an unsupported leaf, with `TypeError` |

## Left out

- Drawing with pygame, the frame clock, the `visualize` flag and `draw_state`: these are I/O. The unused `backtracking` field is not kept.
- Timing: `start_time`, `end_time` and the `time_taken` that `solve` returns are clock reads, and `print_statistics` is printing. The source returns `time_taken` and the moves; `Solve` drops the time and returns the moves, together with two results of the model's own: the `Outcome` (how the run ended) and the route the search found, if any.
- Enhanced.Explorer.Solve: the backtracking loop is bounded by a `fuel` parameter, because in the source it does not always terminate. `OutOfSteps` reports a run still going when the budget ran out.
- DiagonalEnhanced.Explorer.Solve: it has the same `fuel` bound, for the same reason.
- DiagonalEnhanced.Explorer.Astar: costs and heuristic are exact fixed-point integers (×10000) instead of floating point. Float rounding in the sums, and the heap order it could change between equal-looking `f` values, is not modelled.
- The maze class (`maze.py`) is not part of this model. A maze is taken as its width, height, occupancy grid and start and end cells, with the grid well formed.
- DiagonalEnhanced.Explorer: the `direction` field is kept, but nothing in that class reads it.
- Functions.SeqSquare: numbers are modelled as integers. Floating-point squaring is not modelled.
- Functions.PoolSquare: the same: integers only.
- `shared_square` and the multiprocessing `Queue` are left out; they are a side effect on an inter-process queue. So are the modules that drive the helpers (pool, threading, process and MPI runners, the genetic algorithm).
- UtilityFunctions.Flatten: the final conversion to a NumPy `int32` array is not modelled: for an integer outside the `int32` range it raises `OverflowError` (NumPy 2) or wraps around (older NumPy), where the model returns the integer in its list. NumPy integers and arrays are not distinguished from Python integers and lists, and a `bool` (an `int` in Python) is not a separate case. Python's recursion limit is not modelled: `_flatten` raises `RecursionError` on nesting deeper than about a thousand levels, where `Flat` still returns the leaves.
- A self-containing list cannot be built from the `Nested` datatype; on one, `flatten` recurses until Python's recursion limit raises `RecursionError`.
- Python lists that `split_population` or `chunker` receive are modelled as immutable sequences. Aliasing of the chunks with the input is not modelled.
