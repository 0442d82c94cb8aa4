/**
 * The search the solver runs: IDA* over cube states with `is_solved` as the goal test, the
 * nine move names, the move function, and the pattern-database heuristic.
 */
module CornerSearch {
  import opened Wrappers
  import opened Costs
  import opened CubeStates
  import opened MoveEngine
  import opened PatternDb
  import opened IdaStar

  /** The move function as a total step: a defined move on a well-formed state, otherwise no change. */
  function CubeStep(c: Cube, m: string): Cube {
    if c.WellFormed() && Defined(m) then Apply(c, m).value else c
  }

  /** The state one `R` from the goal. */
  const OneR: Cube := CubeStep(Goal, "R")

  /** The state one `U` from the goal. */
  const OneU: Cube := CubeStep(Goal, "U")

  /** The search for cube states under heuristic `h`. */
  function CornerProblem(h: Cube -> Cost, maxDepth: int): Problem<Cube> {
    Problem((c: Cube) => c.IsSolved(), h, MoveNames, CubeStep, maxDepth)
  }

  /** The search with the heuristic as written: infinity for corner keys missing from `db`. */
  function AsWrittenProblem(db: map<Key, nat>, maxDepth: int): Problem<Cube> {
    CornerProblem((c: Cube) => CornerHeuristic(c, db), maxDepth)
  }

  /** The search with the bounded heuristic for a table built to `tableDepth`. */
  function BoundedProblem(db: map<Key, nat>, tableDepth: int, maxDepth: int): Problem<Cube> {
    CornerProblem((c: Cube) => BoundedCornerHeuristic(c, db, tableDepth), maxDepth)
  }

  /** Playing moves in the search is playing them on the cube. */
  lemma {:induction false} RunIsPlay(p: Problem<Cube>, c: Cube, ms: seq<string>)
    requires p.step == CubeStep
    requires c.WellFormed() && AllMoves(ms)
    ensures Run(p, c, ms) == Play(c, ms)
    decreases |ms|
  {
    if ms != [] {
      MoveNamesMatchTable();
      var rest := ms[1..];
      assert AllMoves(rest) by {
        forall i | 0 <= i < |rest| ensures rest[i] in MoveNames {
          assert rest[i] == ms[i + 1];
        }
      }
      RunIsPlay(p, CubeStep(c, ms[0]), rest);
    }
  }

  /**
   * Whatever the heuristic, a solution the search returns for a well-formed state solves the
   * cube when replayed with `apply_move`, in at most the depth limit's number of moves.
   */
  lemma SearchSolutionSolves(h: Cube -> Cost, maxDepth: int, start: Cube, r: Option<seq<string>>)
    requires start.WellFormed() && SearchResult(CornerProblem(h, maxDepth), start, r) && r.Some?
    ensures AllMoves(r.value) && Play(start, r.value).IsSolved()
    ensures r.value == [] || |r.value| <= maxDepth
  {
    RunIsPlay(CornerProblem(h, maxDepth), start, r.value);
  }

  /** A pair of moves the probe prunes cancels on the cube: without it the sequence reaches the same state. */
  lemma CancelPrunedPair(c: Cube, ms: seq<string>, i: int)
    requires c.Valid() && AllMoves(ms) && 1 <= i < |ms| && Pruned(Some(ms[i - 1]), ms[i])
    ensures AllMoves(ms[..i - 1] + ms[i + 1..])
    ensures Play(c, ms[..i - 1] + ms[i + 1..]) == Play(c, ms)
  {
    var a, m, m', b := ms[..i - 1], ms[i - 1], ms[i], ms[i + 1..];
    SplitAroundPair(ms, i);
    AllMovesSlice(ms, 0, i - 1);
    AllMovesSlice(ms, i + 1, |ms|);
    assert ms[0..i - 1] == a && ms[i + 1..|ms|] == b;
    OppositeMovesAreInverses(m', m);
    var x := Play(c, a);
    PlayKeepsValid(c, a);
    PlayPair(x, m, m');
    PlayAppend(c, a, [m, m'] + b);
    PlayAppend(x, [m, m'], b);
    PlayAppend(c, a, b);
  }

  /** A sequence is its first k elements followed by the rest. */
  lemma SplitAt<T>(xs: seq<T>, k: int)
    requires 0 <= k <= |xs|
    ensures xs[..k] + xs[k..] == xs
  {
  }

  /** A sequence is the part before positions i - 1 and i, those two, and the part after. */
  lemma SplitAroundPair<T>(xs: seq<T>, i: int)
    requires 1 <= i < |xs|
    ensures xs == xs[..i - 1] + ([xs[i - 1], xs[i]] + xs[i + 1..])
  {
  }

  /** A move followed by its inverse, played as a sequence, restores a valid state. */
  lemma PlayPair(x: Cube, m: string, m': string)
    requires x.Valid() && m in MoveNames && m' == InverseMove(m)
    ensures AllMoves([m, m']) && Play(x, [m, m']) == x
  {
    InverseOnMoveNames(m);
    ApplyThenInverse(x, m);
    MoveNamesMatchTable();
    assert [m, m'][1..] == [m'];
    assert Play(x, [m, m']) == Play(Apply(x, m).value, [m']);
    assert Play(Apply(x, m).value, [m']) == Play(Apply(Apply(x, m).value, m').value, []);
  }

  /** Every solution of a valid state can be shortened to one without a pair the probe prunes. */
  lemma {:induction false} ReversalFreeSolution(c: Cube, ms: seq<string>) returns (short: seq<string>)
    requires c.Valid() && AllMoves(ms) && Play(c, ms).IsSolved()
    ensures AllMoves(short) && NoReversal(None, short) && |short| <= |ms| && Play(c, short).IsSolved()
    decreases |ms|
  {
    if NoReversal(None, ms) {
      short := ms;
    } else {
      var i :| 1 <= i < |ms| && Pruned(Some(ms[i - 1]), ms[i]);
      CancelPrunedPair(c, ms, i);
      short := ReversalFreeSolution(c, ms[..i - 1] + ms[i + 1..]);
    }
  }

  /**
   * The bounded heuristic is admissible for the search from any valid state, given the
   * distance table built to `tableDepth`.
   */
  lemma BoundedHeuristicAdmissible(db: map<Key, nat>, tableDepth: int, maxDepth: int, start: Cube)
    requires IsDistanceTable(CornerGraph, db, tableDepth) && start.Valid()
    ensures AdmissibleFrom(BoundedProblem(db, tableDepth, maxDepth), start)
  {
    var p := BoundedProblem(db, tableDepth, maxDepth);
    forall pre | AllIn(pre, p.moves) ensures AdmissibleAt(p, Run(p, start, pre)) {
      RunIsPlay(p, start, pre);
      PlayKeepsValid(start, pre);
      var s := Run(p, start, pre);
      forall ms | AllIn(ms, p.moves) && p.goal(Run(p, s, ms)) ensures p.h(s).Fin? && p.h(s).n <= |ms| {
        RunIsPlay(p, s, ms);
        BoundedCornerHeuristicAdmissible(db, tableDepth, s, ms);
      }
    }
  }

  /**
   * With the bounded heuristic the search is optimal: from a valid state with any solution
   * within the depth limit, it returns a solution no longer than that one.
   */
  lemma BoundedSearchOptimal(db: map<Key, nat>, tableDepth: int, maxDepth: int, start: Cube,
                             r: Option<seq<string>>, ms: seq<string>)
    requires IsDistanceTable(CornerGraph, db, tableDepth) && start.Valid()
    requires SearchResult(BoundedProblem(db, tableDepth, maxDepth), start, r)
    requires AllMoves(ms) && |ms| <= maxDepth && Play(start, ms).IsSolved()
    ensures r.Some? && |r.value| <= |ms|
  {
    var p := BoundedProblem(db, tableDepth, maxDepth);
    var short := ReversalFreeSolution(start, ms);
    RunIsPlay(p, start, short);
    assert Solves(p, start, short);
    BoundedHeuristicAdmissible(db, tableDepth, maxDepth, start);
    SearchOptimal(p, start, r, short);
  }

  /**
   * The heuristic as written does not overestimate along a solution of a valid state whose
   * length is within the table's depth: every state on it has a stored key.
   */
  lemma AsWrittenAdmissibleAlong(db: map<Key, nat>, tableDepth: int, maxDepth: int, start: Cube, ms: seq<string>)
    requires IsDistanceTable(CornerGraph, db, tableDepth) && start.Valid()
    requires AllMoves(ms) && |ms| <= tableDepth && Play(start, ms).IsSolved()
    ensures AdmissibleAlong(AsWrittenProblem(db, maxDepth), start, ms)
  {
    var p := AsWrittenProblem(db, maxDepth);
    forall k | 0 <= k <= |ms| ensures AdmissibleAt(p, Run(p, start, ms[..k])) {
      var pre, post := ms[..k], ms[k..];
      SplitAt(ms, k);
      AllMovesSlice(ms, 0, k);
      AllMovesSlice(ms, k, |ms|);
      assert ms[0..k] == pre && ms[k..|ms|] == post;
      RunIsPlay(p, start, pre);
      PlayKeepsValid(start, pre);
      PlayAppend(start, pre, post);
      var s := Play(start, pre);
      CornerHeuristicAdmissibleWithinBound(db, tableDepth, s, post);
      forall rest | AllIn(rest, p.moves) && p.goal(Run(p, s, rest)) ensures p.h(s).Fin? && p.h(s).n <= |rest| {
        RunIsPlay(p, s, rest);
        CornerHeuristicAdmissibleWithinBound(db, tableDepth, s, rest);
      }
    }
  }

  /**
   * What the heuristic as written does guarantee: from a valid state with a solution no
   * longer than the table's depth and the depth limit, the search returns a solution no
   * longer than that one.
   */
  lemma AsWrittenSearchOptimalWithinTable(db: map<Key, nat>, tableDepth: int, maxDepth: int, start: Cube,
                                          r: Option<seq<string>>, ms: seq<string>)
    requires IsDistanceTable(CornerGraph, db, tableDepth) && start.Valid()
    requires SearchResult(AsWrittenProblem(db, maxDepth), start, r)
    requires AllMoves(ms) && |ms| <= maxDepth && |ms| <= tableDepth && Play(start, ms).IsSolved()
    ensures r.Some? && |r.value| <= |ms|
  {
    var p := AsWrittenProblem(db, maxDepth);
    var short := ReversalFreeSolution(start, ms);
    RunIsPlay(p, start, short);
    assert Solves(p, start, short);
    AsWrittenAdmissibleAlong(db, tableDepth, maxDepth, start, short);
    SearchOptimalAlong(p, start, r, short);
  }

  /**
   * The solver's own scenario: one `R` from the goal, any distance table of depth at least 1
   * and a depth limit of at least 1. The search with the heuristic as written returns a
   * one-move solution.
   */
  lemma AsWrittenSolvesOneTurn(db: map<Key, nat>, tableDepth: int, maxDepth: int, r: Option<seq<string>>)
    requires IsDistanceTable(CornerGraph, db, tableDepth) && 1 <= tableDepth && 1 <= maxDepth
    requires SearchResult(AsWrittenProblem(db, maxDepth), OneR, r)
    ensures r.Some? && |r.value| == 1
    ensures AllMoves(r.value) && Play(OneR, r.value).IsSolved()
  {
    var c := OneR;
    OneTurnFromGoal();
    AsWrittenSearchOptimalWithinTable(db, tableDepth, maxDepth, c, r, ["R'"]);
    SearchSolutionSolves((c: Cube) => CornerHeuristic(c, db), maxDepth, c, r);
  }

  /** One `R` from the goal: a valid, unsolved state that `R'` solves. */
  lemma OneTurnFromGoal()
    ensures Apply(Goal, "R") == Success(OneR)
    ensures var c := OneR;
      c.Valid() && !c.IsSolved() && AllMoves(["R'"]) && Play(c, ["R'"]).IsSolved()
  {
    GoalIsSolvedAndValid();
    MoveNamesMatchTable();
    ApplyKeepsValid(Goal, "R");
    ApplyThenInverse(Goal, "R");
    var c := OneR;
    assert InverseMove("R") == "R'";
    assert Play(c, ["R'"]) == Play(Apply(c, "R'").value, []);
    TableValid();
    assert Def("R") == MoveR;
    assert c.cornerPositions[0] == 4;
  }

  /**
   * With the heuristic as written and the depth-0 table, the search from the state one `U`
   * from the goal finds nothing, although `U'` solves it within the default depth limit 20.
   */
  lemma AsWrittenSearchMissesSolution(r: Option<seq<string>>)
    requires SearchResult(AsWrittenProblem(map[GoalKey := 0], 20), OneU, r)
    ensures Solves(AsWrittenProblem(map[GoalKey := 0], 20), OneU, ["U'"])
    ensures r == None
  {
    var p := AsWrittenProblem(map[GoalKey := 0], 20);
    var c := OneU;
    GoalIsSolvedAndValid();
    MoveNamesMatchTable();
    assert c == Apply(Goal, "U").value;
    CornerHeuristicOverestimatesBeyondBound();
    RunIsPlay(p, c, ["U'"]);
    assert !c.IsSolved();
  }
}
