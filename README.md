# Corner solver: state, moves, pattern database and IDA*

A Dafny model of the core of a corner-only Rubik's-cube solver.

- **State.** A cube state holds four integer arrays:
  - corner positions and corner twists, 8 entries each;
  - edge positions and edge twists, 12 entries each. Nothing changes the edges.

  `is_solved` tests all four arrays. The corner key is the 16-entry tuple of corner positions followed by corner twists.
- **Moves.** A table of nine moves (`U U' U2 R R' R2 F F' F2`). Each gives:
  - a permutation of the eight corner slots;
  - a twist added, modulo 3, to the corner that lands in each slot.

  Applying a move rewrites the two corner arrays of a state in place. A name-level function gives each move's inverse.
- **Pattern database.** A breadth-first search from the goal state, down to a maximum depth. It stores, for every corner key it reaches, the depth at which that key was first dequeued.
  - The heuristic reads that table back, and gives infinity for a key that is not stored.
  - A validator checks that the goal key is stored at distance 0.
- **IDA\*.** An iterative-deepening A\* search over any state type.
  - A recursive depth-first probe either returns a path or the least f-cost (`g + h`) above its threshold.
  - The probe skips a move that undoes the previous one (`are_opposite_moves`).
  - An outer loop raises the threshold to the probe's result until the threshold passes the depth limit.
  - An infinite estimate makes `f` infinite, which exceeds every threshold, so the probe cuts that branch at once (ida_star.py:45-50).

Files:

- `wrappers.dfy`: `Option`, `Result` and `Outcome`.
- `costs.dfy`: `Cost = Fin(n) | Inf`, the source's numbers and `float('inf')`.
- `cube_state.dfy`: the state as a value (`Cube`), its corner `Key`, and the mutable `CubeState` object.
- `move_engine.dfy`:
  - the move table and `Apply`;
  - the in-place `ApplyMove`;
  - `InverseMove`;
  - move sequences (`Play`).
- `pattern_db.dfy`:
  - the breadth-first search, specified against `IsDistanceTable`, which holds the least move counts from the goal key;
  - the heuristic and the validator.
- `ida_star.dfy`: the generic search (`Problem<S>`), the probe `Dfs`, the outer loop `IdaStarSearch`, and `AreOppositeMoves`.
- `corner_search.dfy`: the search the solver runs, with cube states, `is_solved`, the nine moves and the heuristic.

What is proved:

- **Search result.** The search returns the table of least distances of the keys within `max_depth` moves of the goal (`IsDistanceTable`).
- **Heuristic bound.** Within that table's depth, the heuristic never overestimates.
- **Found paths.** A found path is a move sequence from the move set, with no move undoing the one before it, within the depth limit. It reaches a goal.
- **Probe costs.** Every numeric probe result exceeds its threshold, so the threshold strictly rises.
- **Failure.** A `None` result means that every goal line needs more than the depth limit.
- **Optimality.** With an admissible heuristic, IDA\* is complete and optimal among reversal-free solutions within the depth limit. On the cube, with the corrected heuristic, it is optimal among all solutions within the depth limit. With the heuristic as written, it is optimal among solutions no longer than both the table depth and the depth limit. Beyond the depth limit nothing is promised: a start whose estimate exceeds the limit gives `None`.

## Model

| member | source | states |
|---|---|---|
| CubeStates.CubeState.constructor | cube_state.py:2-8 | A new state is the goal state: corners in order with zero twist, edges in order with zero flip. It is solved and satisfies the state invariant. |
| CubeStates.CubeState.Copy | cube_state.py:10-17 | The copy is a newly allocated object with the same four arrays, and the two compare equal both ways. |
| CubeStates.CubeState.Equals | cube_state.py:26-33 | Equality is false for anything that is not a cube state; otherwise it holds exactly when all four arrays agree. |
| CubeStates.Cube.IsSolved | cube_state.py:19-24 | `is_solved` holds exactly for the goal state, and a solved state satisfies the state invariant. |
| CubeStates.Cube.CornerKey | cube_state.py:40-42 | For a well-formed state the key is a 16-entry tuple: the corner positions, then the corner orientations. |
| CubeStates.GoalIsSolvedAndValid | cube_state.py:2-8 | The initial state is solved and valid. Its corner key is the identity positions followed by eight zeros. |
| CubeStates.SolvedIffGoal | cube_state.py:19-24 | `is_solved` holds for exactly one state, the initial one. |
| CubeStates.CornerKeyLayout | cube_state.py:40-42 | The corner key has 16 entries: the 8 positions, then the 8 twists. |
| CubeStates.EntriesDetermineKey | cube_state.py:40-42 | Holding the key as a pair of halves loses nothing: two keys are equal exactly when their 16-tuples are. |
| CubeStates.CornerKeyDeterminesCorners | cube_state.py:40-42 | Two states share a corner key exactly when their corner arrays agree. The edges play no part. |
| MoveEngine.CornerMove | move_engine.py:12-27 | `CORNER_MOVES` has an entry for a name exactly when the name is one of `MOVE_NAMES`. |
| MoveEngine.Def | move_engine.py:12-27 | The entry of a catalogued name is a permutation of 0..7 with eight twists in 0..2. |
| MoveEngine.InverseMove | move_engine.py:72-79 | The inverse name turns the same face as the name, and a name is its own inverse exactly when it ends in `2`. |
| MoveEngine.MoveNamesMatchTable | move_engine.py:4-27 | `MOVE_NAMES` lists nine distinct names, and a name has a table entry exactly when it is one of them. |
| MoveEngine.TableValid | move_engine.py:12-27 | Every table entry is a permutation of 0..7 with twists in 0..2. |
| MoveEngine.InverseEntryUndoes | move_engine.py:12-27 | For each of the nine names, the table entry of its inverse name undoes its own entry. |
| MoveEngine.Apply | move_engine.py:34-52 | An undefined name is an error. A defined move yields a well-formed state whose edges are unchanged. |
| MoveEngine.ApplyMove | move_engine.py:68-70 | It fails exactly for an undefined name, and then leaves the cube as it was. Otherwise both corner arrays are replaced by those `Apply` computes from the old arrays. |
| MoveEngine.ApplyKeepsValid | move_engine.py:43-52 | A move keeps the state invariant: positions stay a permutation and twists stay in 0..2. |
| MoveEngine.InverseInvolutive | move_engine.py:72-79 | `get_inverse_move` applied twice gives the name back exactly unless the name ends in `''` or `2'`. |
| MoveEngine.InverseOnMoveNames | move_engine.py:72-79 | On the nine names the inverse is again one of the nine, and inverting twice gives the name back. |
| MoveEngine.ApplyThenInverse | move_engine.py:72-79 | On every valid state, a move followed by its inverse restores the state. |
| MoveEngine.HalfTurnTwice | move_engine.py:14-26 | `U2`, `R2` and `F2` applied twice restore every valid state. |
| MoveEngine.QuarterTurnUTwice | move_engine.py:14-16 | `U` applied twice is `U2` on every well-formed state. |
| MoveEngine.QuarterTurnTwicePositions | move_engine.py:19-26 | `R` twice and `F` twice move the corners as `R2` and `F2` do. |
| MoveEngine.QuarterTurnRFourTimesTwists | move_engine.py:19 | `R` has not got order four. One `R` from the goal raises the twist sum from 0 to 4, and four `R`s leave corner 0 twisted. |
| MoveEngine.PlayKeepsValid | move_engine.py:68-70 | Any sequence of the nine moves keeps a valid state valid. |
| MoveEngine.InverseSequence | move_engine.py:72-79 | The inverse sequence has the inverses of the moves, last move first. |
| MoveEngine.PlayAppend | move_engine.py:68-70 | Playing two sequences one after the other is playing their concatenation. |
| MoveEngine.PlayThenInverse | move_engine.py:68-79 | A move sequence followed by its inverse sequence restores every valid state. |
| PatternDb.KeyOfApply | pattern_db.py:63-67 | The key after a move depends only on the key before it. |
| PatternDb.PlayFromGoal | pattern_db.py:63-67 | Playing moves from the goal state walks the goal key through the corner-key graph. |
| PatternDb.GenerateCornerPatternDatabase | pattern_db.py:35-71 | The result is the table of least move counts up to `max_depth`. Every stored key is reached in exactly its stored count, which is at most `max_depth`. Every key reachable within `max_depth` moves is stored, at no more than the moves that reach it. The goal key is stored at 0, and the table is empty for a negative depth. |
| PatternDb.Successors | pattern_db.py:63-69 | The successor loop queues at most nine states, each one level deeper and each with a key not yet visited. |
| PatternDb.QueueSuccessors | pattern_db.py:63-69 | The loop's new queue is the old queue followed by `Successors` of the dequeued state over the nine moves, in order. |
| PatternDb.WalkWithin | pattern_db.py:43-69 | Every key the search can store lies in the finite set of keys within `max_depth` moves. That set bounds the loop. |
| PatternDb.TableLeast | pattern_db.py:43-55 | A key reachable in n moves, with n within the bound, is stored at n or less. |
| PatternDb.TableRootAtZero | pattern_db.py:36-39 | The goal key is stored at distance 0 whenever the bound is at least 0. |
| PatternDb.DistanceTablePredecessor | pattern_db.py:63-69 | Every key stored at d > 0 is one move from a key stored at d - 1. |
| PatternDb.DepthZeroTable | pattern_db.py:35-55 | The goal key alone, at 0, is a depth-0 distance table, and it is the only one. So `generate_corner_pattern_database(0)`, whose result is a distance table, returns exactly that map. |
| PatternDb.CornerHeuristic | pattern_db.py:95-96 | The estimate is infinity exactly when the corner key is not in the table. A solved state scores 0 on every table that passes validation. |
| PatternDb.CornerHeuristicAdmissibleWithinBound | pattern_db.py:83-96 | Take a valid state with a solution of n moves. A finite estimate from a distance table is at most n, and the estimate is finite whenever n is within the table's bound. |
| PatternDb.CornerHeuristicOverestimatesBeyondBound | pattern_db.py:95-96 | With the depth-0 table, the state one `U` from the goal is solved by `U'`, but its estimate is infinity. |
| PatternDb.BoundedCornerHeuristic | pattern_db.py:95-96 | The corrected estimate is always finite. On stored keys it is `corner_heuristic`. A key missing from a table built to depth d scores more than d. |
| PatternDb.BoundedCornerHeuristicAdmissible | pattern_db.py:83-96 | The corrected heuristic never overestimates. On every valid state with a solution of n moves it is finite and at most n, and on stored keys it agrees with `corner_heuristic`. |
| PatternDb.ValidatePatternDatabase | pattern_db.py:98-110 | It passes exactly when the goal key is stored at 0. The missing-key error occurs exactly when the goal key is absent; otherwise the error carries the stored distance of the goal key. |
| PatternDb.DistanceTableValidates | pattern_db.py:98-110 | Every table the search builds with depth at least 0 passes validation. With a negative depth it fails with the missing-key error. |
| IdaStar.AreOppositeMoves | ida_star.py:111-143 | Opposite names are non-empty and share their face letter. They have at most two characters, and a name is opposite to itself only as a half turn. |
| IdaStar.Pruned | ida_star.py:65 | The first move of a probe is never pruned. A pruned move turns the same face as the move before it. |
| IdaStar.OppositeMovesNeedNames | ida_star.py:122-131 | An empty name is opposite to nothing, and opposite moves share their face letter. |
| IdaStar.OppositeMovesSymmetric | ida_star.py:134-143 | `are_opposite_moves(a, b)` equals `are_opposite_moves(b, a)`. |
| IdaStar.OppositeMovesExamples | ida_star.py:134-143 | The pairs `R2`/`R2`, `R`/`R'` and `R'`/`R` are opposite. The pairs `R`/`R`, `R`/`R2` and `R`/`U'` are not. |
| IdaStar.OppositeMovesAreInverses | ida_star.py:111-143 | On the nine names, `a` is opposite to `b` exactly when `a` is `get_inverse_move(b)`. |
| IdaStar.LineFacts | ida_star.py:57-73 | A line the probe follows uses moves from the move set and contains no pruned pair. It ends within the depth limit and the threshold. |
| IdaStar.Dfs | ida_star.py:25-83 | A found path extends the current path by a probe line that ends in a goal. A numeric result exceeds the threshold and is a lower bound on the bound of every goal line from the node; infinity means that there is none. |
| IdaStar.IdaStarSearch | ida_star.py:16-109 | A goal start gives `[]`. An infinite or too-large first estimate gives `None`. Otherwise a found path is a reversal-free solution within the depth limit, no longer than any goal line's bound. `None` means every goal line needs a bound above the depth limit. |
| IdaStar.SolutionIsLine | ida_star.py:45-73 | If the heuristic does not overestimate at any state along it, a reversal-free solution that reaches a goal only at its end is a probe line whose bound is its own length. |
| IdaStar.SearchOptimalAlong | ida_star.py:1-15 | If the heuristic does not overestimate along some reversal-free solution within the depth limit, the search returns a solution no longer than it. |
| IdaStar.SearchOptimal | ida_star.py:1-15 | With an admissible heuristic, whenever a reversal-free solution within the depth limit exists, the search returns a solution no longer than it. |
| CornerSearch.RunIsPlay | ida_star.py:69-70 | Copy-and-apply in the probe plays the nine moves on the cube exactly as `apply_move` does. |
| CornerSearch.BoundedHeuristicAdmissible | pattern_db.py:83-96 | With a distance table, the corrected heuristic is admissible for the search from any valid state. |
| CornerSearch.SearchSolutionSolves | ida_star.py:53-73 | Under any heuristic, a path the search returns, replayed on the start state with `apply_move`, solves the cube within the depth limit. |
| CornerSearch.CancelPrunedPair | ida_star.py:64-66 | A pair of moves the probe prunes cancels on the cube: dropping both reaches the same state. |
| CornerSearch.ReversalFreeSolution | ida_star.py:64-66 | Every solution of a valid state can be shortened to one with no pruned pair, so the pruning loses no shortest solution. |
| CornerSearch.BoundedSearchOptimal | ida_star.py:1-15 | With the corrected heuristic, from a valid state with any solution within the depth limit, the search returns a solution no longer than that one. |
| CornerSearch.AsWrittenAdmissibleAlong | pattern_db.py:83-96 | Along a solution of a valid state no longer than the table depth, the heuristic as written is finite and never overestimates. |
| CornerSearch.AsWrittenSearchOptimalWithinTable | ida_star.py:1-15 | With the heuristic as written, from a valid state with a solution no longer than both the table depth and the depth limit, the search returns a solution no longer than that one. |
| CornerSearch.AsWrittenSolvesOneTurn | ida_star.py:16-109 | With the heuristic as written, any distance table of depth at least 1 and a depth limit of at least 1, the search from the state one `R` from the goal returns a one-move solution that solves the cube. |
| CornerSearch.OneTurnFromGoal | move_engine.py:19-22 | The state one `R` from the goal is valid and not solved, and `R'` solves it. |
| CornerSearch.AsWrittenSearchMissesSolution | ida_star.py:17-21 | Take the heuristic as written, the depth-0 table and the default depth limit 20. The search from the state one `U` from the goal returns `None`, although `U'` solves it. |

## Left out

- The pickle cache of the pattern database (pattern_db.py:22-31 and 73-79) is file I/O. The model always builds the table from `max_depth`.
- Progress output and the `states_processed`, `nodes_explored` and `iteration` counters are left out, and so is `print_search_stats`. They are reporting only.
- `CubeState.__hash__` relies on Python's `hash`. Keys and states compare by value.
- The `MoveEngine` class stores a registry of closures filled by `define_move` and `_define_corner_moves`. The model keeps the table as the pure lookup `CornerMove` / `Def`. The closure body is `Apply`, and its in-place update is `ApplyMove`.
- `get_available_moves` is not called by the core. `MoveNamesMatchTable` states that the table's names are the nine of `MOVE_NAMES`.
- main.py (scrambles, timing, the recursion limit, replaying a solution) is not part of this model.
- `float('inf')` is the constructor `Inf` of `Cost`, not a floating-point value.
- Python integers are unbounded like Dafny's. Every `% 3` in the source has a non-negative left operand, so Python's floor modulo and Dafny's Euclidean modulo agree.
- The breadth-first queue holds state values, not `CubeState` objects. In the source every queued object is a fresh copy that nothing changes afterwards.
- The probe's `node.copy()` followed by `apply_move_fn` is the pure step function of `Problem`. For the cube that step is `CubeStep`. The model does not capture the aliasing that the copy avoids.
- The generic goal test, heuristic and move function are pure total functions. The source's callbacks could raise or have side effects.
- CornerSearch.CubeStep: on a name outside the table or a malformed state it returns the state unchanged, where the source raises. The search only passes the nine names to well-formed states.
- MoveEngine.ApplyMove: it requires the arrays to have their usual lengths. The source would raise an index error on shorter arrays.
- IdaStar.IdaStarSearch: optimality is stated among reversal-free solutions, those with no move undoing the one before it. The search skips the others by design. For the cube, `CornerSearch.ReversalFreeSolution` removes the restriction.

## Findings

| source | as written | input that shows it | evidently intended | confidence | as-written member | corrected member |
|---|---|---|---|---|---|---|
| pattern_db.py:95-96 | `corner_heuristic` returns `float('inf')` for every corner key missing from the table. The docstring calls it admissible, yet a key beyond the build depth may be only a few moves from solved. `ida_star_search` then starts with an infinite threshold and returns `None` without a probe. | The table for `max_depth=0` (the goal key alone, by `PatternDb.DepthZeroTable`) and the state after `U`: `U'` solves it, but its estimate is infinity and the search returns `None` | a finite lower bound: a key missing from a table built to depth d needs at least d + 1 moves | not executed | PatternDb.CornerHeuristicOverestimatesBeyondBound, CornerSearch.AsWrittenSearchMissesSolution | PatternDb.BoundedCornerHeuristicAdmissible, CornerSearch.BoundedSearchOptimal |
