/**
 * ida_star.py: iterative-deepening A* over any state type.  The caller supplies the goal
 * test, the heuristic, the move names, the move function and the depth limit, as the
 * source's parameters do.  A probe (`dfs`) either finds a path or reports the least f-cost
 * above the threshold it met; the outer loop raises the threshold to that cost.
 */
module IdaStar {
  import opened Wrappers
  import opened Costs
  import MoveEngine

  // ---------------------------------------------------------------- move pruning

  /**
   * `are_opposite_moves`: both names non-empty, the same face letter, and the suffixes
   * after the letter are ("", "'"), ("'", "") or ("2", "2"). Opposite names share their
   * face letter, have at most two characters, and are equal only as a half turn.
   */
  predicate AreOppositeMoves(move1: string, move2: string): (r: bool)
    ensures r ==> move1 != "" && move2 != "" && move1[0] == move2[0]
    ensures r ==> |move1| <= 2 && |move2| <= 2 && (move1 == move2 <==> |move1| == 2 && move1[1] == '2')
  {
    if move1 == "" || move2 == "" then false
    else if move1[0] != move2[0] then false
    else
      var suffix1 := if |move1| > 1 then move1[1..] else "";
      var suffix2 := if |move2| > 1 then move2[1..] else "";
      (suffix1, suffix2) in {("", "'"), ("'", ""), ("2", "2")}
  }

  /** An empty name is never opposite to anything. */
  lemma OppositeMovesNeedNames(a: string, b: string)
    ensures a == "" || b == "" ==> !AreOppositeMoves(a, b)
    ensures AreOppositeMoves(a, b) ==> a[0] == b[0]
  {
  }

  /** Being opposite does not depend on the order of the two names. */
  lemma OppositeMovesSymmetric(a: string, b: string)
    ensures AreOppositeMoves(a, b) <==> AreOppositeMoves(b, a)
  {
  }

  /** A half turn is opposite to itself; a quarter turn is not. */
  lemma OppositeMovesExamples()
    ensures AreOppositeMoves("R2", "R2") && AreOppositeMoves("R", "R'") && AreOppositeMoves("R'", "R")
    ensures !AreOppositeMoves("R", "R") && !AreOppositeMoves("R", "R2") && !AreOppositeMoves("R", "U'")
  {
    assert "R2"[1..] == "2";
    assert "R'"[1..] == "'";
  }

  /** On the nine move names, two moves are opposite exactly when one is the other's inverse. */
  lemma OppositeMovesAreInverses(a: string, b: string)
    requires a in MoveEngine.MoveNames && b in MoveEngine.MoveNames
    ensures AreOppositeMoves(a, b) <==> a == MoveEngine.InverseMove(b)
  {
    assert "U'"[1..] == "'" && "U2"[1..] == "2";
    assert "R'"[1..] == "'" && "R2"[1..] == "2";
    assert "F'"[1..] == "'" && "F2"[1..] == "2";
  }

  /**
   * The source's `if last_move and are_opposite_moves(move, last_move)`: the first move is
   * never pruned, and a pruned move turns the face the move before it turned.
   */
  predicate Pruned(last: Option<string>, move: string): (r: bool)
    ensures last == None ==> !r
    ensures r ==> last.Some? && move != "" && last.value != "" && move[0] == last.value[0]
  {
    last.Some? && last.value != "" && AreOppositeMoves(move, last.value)
  }

  // ---------------------------------------------------------------- the search problem

  /** The parameters of `ida_star_search` other than the start state. */
  datatype Problem<!S> = Problem(
    goal: S -> bool,
    h: S -> Cost,
    moves: seq<string>,
    step: (S, string) -> S,
    maxDepth: int)

  /** The state reached from `s` by playing `ms` in order. */
  function Run<S>(p: Problem<S>, s: S, ms: seq<string>): S
    decreases |ms|
  {
    if ms == [] then s else Run(p, p.step(s, ms[0]), ms[1..])
  }

  /** No move of `ms` is pruned after the one before it (the first one comes after `last`). */
  predicate NoReversal(last: Option<string>, ms: seq<string>) {
    && (ms != [] ==> !Pruned(last, ms[0]))
    && forall i :: 1 <= i < |ms| ==> !Pruned(Some(ms[i - 1]), ms[i])
  }

  /** `g + h(s)` does not exceed `bound`. */
  predicate FitsBound<S>(p: Problem<S>, s: S, g: nat, bound: nat) {
    !Exceeds(Plus(g, p.h(s)), bound)
  }

  /**
   * `ms` is a line a probe with threshold `bound` follows from `s` at depth `g` after the
   * move `last`: every state on it has f-cost at most `bound`, and every state before its
   * end is below the depth limit and not a goal, and is left by an unpruned move from the
   * move set.
   */
  predicate Line<S>(p: Problem<S>, s: S, g: nat, bound: nat, last: Option<string>, ms: seq<string>)
    decreases |ms|
  {
    && FitsBound(p, s, g, bound)
    && (ms != [] ==>
          && g < p.maxDepth && !p.goal(s) && ms[0] in p.moves && !Pruned(last, ms[0])
          && Line(p, p.step(s, ms[0]), g + 1, bound, Some(ms[0]), ms[1..]))
  }

  /** A line is a reversal-free sequence of moves from the set, within the depth limit and the bound. */
  lemma {:induction false} LineFacts<S>(p: Problem<S>, s: S, g: nat, bound: nat, last: Option<string>, ms: seq<string>)
    requires Line(p, s, g, bound, last, ms)
    ensures MoveEngine.AllIn(ms, p.moves) && NoReversal(last, ms)
    ensures g + |ms| <= bound
    ensures ms != [] ==> g + |ms| <= p.maxDepth
    decreases |ms|
  {
    if ms != [] {
      var rest := ms[1..];
      LineFacts(p, p.step(s, ms[0]), g + 1, bound, Some(ms[0]), rest);
      forall i | 1 <= i < |ms| ensures ms[i] in p.moves && !Pruned(Some(ms[i - 1]), ms[i]) {
        assert ms[i] == rest[i - 1];
        if i > 1 {
          assert ms[i - 1] == rest[i - 2];
        }
      }
    }
  }

  /** One step of a line: the rest of the line starts from the state the first move reaches. */
  lemma LineStep<S>(p: Problem<S>, s: S, g: nat, bound: nat, last: Option<string>, move: string, ms: seq<string>)
    requires Line(p, s, g, bound, last, [move] + ms)
    ensures Line(p, p.step(s, move), g + 1, bound, Some(move), ms)
    ensures Run(p, s, [move] + ms) == Run(p, p.step(s, move), ms)
  {
    assert ([move] + ms)[0] == move && ([move] + ms)[1..] == ms;
  }

  // ---------------------------------------------------------------- the probe

  /** The result of `dfs`: a path, or the cost that cut the probe off. */
  datatype Probe = Found(path: seq<string>) | Over(cost: Cost)

  /** The goal lines from `s` only exist for bounds of at least `c`. */
  ghost predicate LinesCostAtLeast<S>(p: Problem<S>, s: S, g: nat, last: Option<string>, c: Cost) {
    forall ms: seq<string>, bound: nat {:trigger Line(p, s, g, bound, last, ms)} ::
      Line(p, s, g, bound, last, ms) && p.goal(Run(p, s, ms)) ==> c.Fin? && c.n <= bound
  }

  /**
   * `dfs`: from `node` at depth `g`, with the moves so far in `path`.  A found path extends
   * `path` by a line to a goal within the threshold.  A numeric result exceeds the
   * threshold and is a lower bound on the bound of every goal line from `node`; infinity
   * means there is no goal line at all.
   */
  method Dfs<S>(p: Problem<S>, node: S, g: nat, threshold: nat, path: seq<string>, last: Option<string>)
    returns (r: Probe)
    ensures r.Found? ==> |r.path| >= |path| && r.path[..|path|] == path
    ensures r.Found? ==> Line(p, node, g, threshold, last, r.path[|path|..])
    ensures r.Found? ==> p.goal(Run(p, node, r.path[|path|..]))
    ensures r.Over? ==> Exceeds(r.cost, threshold)
    ensures r.Over? ==> LinesCostAtLeast(p, node, g, last, r.cost)
    decreases p.maxDepth - g
  {
    var f := Plus(g, p.h(node));
    if Exceeds(f, threshold) {
      return Over(f);
    }
    if p.goal(node) {
      assert path[|path|..] == [];
      return Found(path);
    }
    if g >= p.maxDepth {
      return Over(Inf);
    }
    var minCost := Inf;
    var i := 0;
    while i < |p.moves|
      invariant 0 <= i <= |p.moves|
      invariant Exceeds(minCost, threshold)
      invariant forall ms: seq<string>, bound: nat {:trigger Line(p, node, g, bound, last, ms)} ::
        (Line(p, node, g, bound, last, ms) && p.goal(Run(p, node, ms)) && ms != [] && ms[0] in p.moves[..i]) ==>
          minCost.Fin? && minCost.n <= bound
    {
      var move := p.moves[i];
      assert p.moves[..i + 1] == p.moves[..i] + [move];
      if Pruned(last, move) {
        i := i + 1;
        continue;
      }
      var next := p.step(node, move);
      var result := Dfs(p, next, g + 1, threshold, path + [move], Some(move));
      if result.Found? {
        FoundThroughMove(p, node, g, threshold, path, last, move, result.path);
        return result;
      }
      ghost var before := minCost;
      if Less(result.cost, minCost) {
        minCost := result.cost;
      }
      OverThroughMove(p, node, g, last, move, result.cost, before, minCost);
      i := i + 1;
    }
    assert p.moves[..i] == p.moves;
    return Over(minCost);
  }

  /** A path found below `move` is a line from `node` that starts with `move`. */
  lemma FoundThroughMove<S>(p: Problem<S>, node: S, g: nat, threshold: nat, path: seq<string>,
                            last: Option<string>, move: string, found: seq<string>)
    requires FitsBound(p, node, g, threshold) && g < p.maxDepth && !p.goal(node)
    requires move in p.moves && !Pruned(last, move)
    requires |found| >= |path + [move]| && found[..|path + [move]|] == path + [move]
    requires Line(p, p.step(node, move), g + 1, threshold, Some(move), found[|path + [move]|..])
    requires p.goal(Run(p, p.step(node, move), found[|path + [move]|..]))
    ensures |found| >= |path| && found[..|path|] == path
    ensures Line(p, node, g, threshold, last, found[|path|..])
    ensures p.goal(Run(p, node, found[|path|..]))
  {
    var suffix := found[|path|..];
    assert found[..|path|] == (path + [move])[..|path|];
    assert suffix[0] == move;
    assert suffix[1..] == found[|path + [move]|..];
  }

  /** After trying `move`, the least cost seen bounds the goal lines starting with `move`. */
  lemma OverThroughMove<S>(p: Problem<S>, node: S, g: nat, last: Option<string>, move: string,
                           cost: Cost, before: Cost, after: Cost)
    requires LinesCostAtLeast(p, p.step(node, move), g + 1, Some(move), cost)
    requires after == if Less(cost, before) then cost else before
    ensures forall ms: seq<string>, bound: nat {:trigger Line(p, node, g, bound, last, ms)} ::
      (Line(p, node, g, bound, last, ms) && p.goal(Run(p, node, ms)) && ms != [] && ms[0] == move) ==>
        after.Fin? && after.n <= bound
    ensures before.Fin? ==> after.Fin? && after.n <= before.n
  {
    forall ms: seq<string>, bound: nat | Line(p, node, g, bound, last, ms) && p.goal(Run(p, node, ms)) && ms != [] && ms[0] == move
      ensures after.Fin? && after.n <= bound
    {
      assert ms == [move] + ms[1..];
      LineStep(p, node, g, bound, last, move, ms[1..]);
    }
  }

  // ---------------------------------------------------------------- the outer loop

  /** `ms` solves the problem from `start`: moves from the set, no reversal, within the depth limit. */
  predicate Solves<S>(p: Problem<S>, start: S, ms: seq<string>) {
    && MoveEngine.AllIn(ms, p.moves)
    && NoReversal(None, ms)
    && (ms != [] ==> |ms| <= p.maxDepth)
    && p.goal(Run(p, start, ms))
  }

  /**
   * What `ida_star_search` returns: `[]` for a goal start; nothing when the start's estimate
   * is infinite or above the depth limit; otherwise a solution no longer than the bound of
   * any goal line from the start, or nothing when every goal line needs a bound above the
   * depth limit.
   */
  ghost predicate SearchResult<S>(p: Problem<S>, start: S, r: Option<seq<string>>) {
    && (p.goal(start) ==> r == Some([]))
    && (!p.goal(start) && !(p.h(start).Fin? && p.h(start).n <= p.maxDepth) ==> r == None)
    && (r.Some? ==> Solves(p, start, r.value))
    && (r.Some? ==> forall ms: seq<string>, bound: nat {:trigger Line(p, start, 0, bound, None, ms)} ::
          Line(p, start, 0, bound, None, ms) && p.goal(Run(p, start, ms)) ==> |r.value| <= bound)
    && (r.None? ==> forall ms: seq<string>, bound: nat {:trigger Line(p, start, 0, bound, None, ms)} ::
          Line(p, start, 0, bound, None, ms) && p.goal(Run(p, start, ms)) ==> bound > p.maxDepth)
  }

  /**
   * `ida_star_search`: start with the heuristic estimate as threshold and probe while the
   * threshold is at most the depth limit, raising it to each probe's cost.
   */
  method IdaStarSearch<S>(p: Problem<S>, start: S) returns (r: Option<seq<string>>)
    ensures SearchResult(p, start, r)
  {
    var threshold := p.h(start);
    if p.goal(start) {
      return Some([]);
    }
    while threshold.Fin? && threshold.n <= p.maxDepth
      invariant LinesCostAtLeast(p, start, 0, None, threshold)
      decreases if threshold.Fin? then p.maxDepth - threshold.n else -1
    {
      var result := Dfs(p, start, 0, threshold.n, [], None);
      if result.Found? {
        assert result.path[0..] == result.path;
        LineFacts(p, start, 0, threshold.n, None, result.path);
        return Some(result.path);
      }
      if result.cost == Inf {
        break;
      }
      threshold := result.cost;
    }
    return None;
  }

  // ---------------------------------------------------------------- admissibility

  /** `h` does not overestimate at `s`: every goal reached from `s` needs at least `h(s)` moves. */
  ghost predicate AdmissibleAt<S>(p: Problem<S>, s: S) {
    forall ms {:trigger Run(p, s, ms)} ::
      MoveEngine.AllIn(ms, p.moves) && p.goal(Run(p, s, ms)) ==> p.h(s).Fin? && p.h(s).n <= |ms|
  }

  /** `h` does not overestimate at any state reachable from `start`. */
  ghost predicate AdmissibleFrom<S>(p: Problem<S>, start: S) {
    forall pre {:trigger Run(p, start, pre)} :: MoveEngine.AllIn(pre, p.moves) ==> AdmissibleAt(p, Run(p, start, pre))
  }

  /** `h` does not overestimate at any state `ms` passes through from `s`, its end included. */
  ghost predicate AdmissibleAlong<S>(p: Problem<S>, s: S, ms: seq<string>) {
    forall k {:trigger Run(p, s, ms[..k])} :: 0 <= k <= |ms| ==> AdmissibleAt(p, Run(p, s, ms[..k]))
  }

  /**
   * If the heuristic does not overestimate along a solution that reaches a goal only at its
   * end, that solution is a goal line whose bound is its own length (offset by the starting
   * depth).
   */
  lemma {:induction false} SolutionIsLine<S>(p: Problem<S>, s: S, g: nat, last: Option<string>, ms: seq<string>, bound: nat)
    requires AdmissibleAlong(p, s, ms)
    requires MoveEngine.AllIn(ms, p.moves) && NoReversal(last, ms)
    requires g + |ms| <= bound && (ms != [] ==> g + |ms| <= p.maxDepth)
    requires forall k :: 0 <= k < |ms| ==> !p.goal(Run(p, s, ms[..k]))
    requires p.goal(Run(p, s, ms))
    ensures Line(p, s, g, bound, last, ms)
    decreases |ms|
  {
    assert ms[..0] == [] && Run(p, s, []) == s;
    assert AdmissibleAt(p, Run(p, s, ms[..0]));
    if ms != [] {
      var next, rest := p.step(s, ms[0]), ms[1..];
      forall k | 0 <= k <= |rest| ensures AdmissibleAt(p, Run(p, next, rest[..k])) {
        assert ms[..k + 1] == [ms[0]] + rest[..k];
        assert Run(p, s, ms[..k + 1]) == Run(p, next, rest[..k]);
      }
      forall k | 0 <= k < |rest| ensures !p.goal(Run(p, next, rest[..k])) {
        assert ms[..k + 1] == [ms[0]] + rest[..k];
        assert Run(p, s, ms[..k + 1]) == Run(p, next, rest[..k]);
      }
      forall i | 1 <= i < |rest| ensures !Pruned(Some(rest[i - 1]), rest[i]) {
        assert rest[i] == ms[i + 1] && rest[i - 1] == ms[i];
      }
      if rest != [] {
        assert rest[0] == ms[1];
      }
      SolutionIsLine(p, next, g + 1, Some(ms[0]), rest, bound);
    }
  }

  /** Some prefix of a solution is a solution that reaches a goal only at its end. */
  lemma {:induction false} FirstGoalPrefix<S>(p: Problem<S>, s: S, ms: seq<string>, n: nat) returns (k: nat)
    requires n <= |ms| && p.goal(Run(p, s, ms[..n]))
    ensures k <= n && p.goal(Run(p, s, ms[..k]))
    ensures forall j :: 0 <= j < k ==> !p.goal(Run(p, s, ms[..j]))
    decreases n
  {
    if j :| 0 <= j < n && p.goal(Run(p, s, ms[..j])) {
      k := FirstGoalPrefix(p, s, ms, j);
    } else {
      k := n;
    }
  }

  /**
   * If the heuristic does not overestimate along some reversal-free solution within the depth
   * limit, the search returns a solution no longer than it.
   */
  lemma SearchOptimalAlong<S>(p: Problem<S>, start: S, r: Option<seq<string>>, ms: seq<string>)
    requires SearchResult(p, start, r) && Solves(p, start, ms) && AdmissibleAlong(p, start, ms)
    ensures r.Some? && |r.value| <= |ms|
  {
    assert ms[..|ms|] == ms;
    var k := FirstGoalPrefix(p, start, ms, |ms|);
    var first := ms[..k];
    forall j | 0 <= j < k ensures !p.goal(Run(p, start, first[..j])) {
      assert first[..j] == ms[..j];
    }
    forall i | 1 <= i < |first| ensures !Pruned(Some(first[i - 1]), first[i]) {
      assert first[i] == ms[i] && first[i - 1] == ms[i - 1];
    }
    forall j | 0 <= j <= |first| ensures AdmissibleAt(p, Run(p, start, first[..j])) {
      assert first[..j] == ms[..j];
    }
    if first != [] {
      assert first[0] == ms[0];
    }
    assert MoveEngine.AllIn(first, p.moves);
    SolutionIsLine(p, start, 0, None, first, |first|);
  }

  /**
   * With an admissible heuristic the search is complete and optimal among reversal-free
   * solutions: if one exists within the depth limit, the search returns a solution no
   * longer than it.
   */
  lemma SearchOptimal<S>(p: Problem<S>, start: S, r: Option<seq<string>>, ms: seq<string>)
    requires SearchResult(p, start, r) && AdmissibleFrom(p, start)
    requires Solves(p, start, ms)
    ensures r.Some? && |r.value| <= |ms|
  {
    forall k | 0 <= k <= |ms| ensures AdmissibleAt(p, Run(p, start, ms[..k])) {
      assert MoveEngine.AllIn(ms[..k], p.moves);
    }
    SearchOptimalAlong(p, start, r, ms);
  }
}
