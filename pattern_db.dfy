/**
 * The corner pattern database of pattern_db.py: a breadth-first search from the goal
 * state, bounded by a maximum depth, that records for every corner key it reaches the
 * depth at which it was first dequeued; the heuristic that reads it back; and the check
 * that the goal key is stored with distance 0.
 *
 * The distances are specified on corner keys: `Within(n)` is the set of keys reachable
 * from the goal key in at most n moves, and `IsDistanceTable` says a map stores, for
 * exactly the keys within the bound, the least such n.
 */
module PatternDb {
  import opened Wrappers
  import opened Costs
  import opened CubeStates
  import opened MoveEngine

  // ---------------------------------------------------------------- moves on keys

  /** A move on corner keys: the positions and twists of a key turned as the move turns a state. */
  type KeyMove = (Key, string) -> Key

  /**
   * The corner key a move leads to, computed on the key alone (a key whose halves are not 8 long
   * or a name outside the table is left as it is; the search never produces either).
   */
  function KeyStep(k: Key, m: string): Key {
    if |k.positions| == 8 && |k.orientations| == 8 && Defined(m) then
      var d := Def(m);
      Key(TurnPositions(k.positions, d), TurnOrientations(k.orientations, d))
    else k
  }

  /** A move acts on the corner key of a state as `KeyStep` acts on the key: edges play no part. */
  lemma KeyOfApply(c: Cube, m: string)
    requires c.WellFormed() && m in MoveNames
    ensures Apply(c, m).Success?
    ensures Apply(c, m).value.CornerKey() == KeyStep(c.CornerKey(), m)
  {
    MoveNamesMatchTable();
  }

  // ---------------------------------------------------------------- reachability

  /** The graph the search explores: keys reached from `root` by the moves of `moves` under `step`. */
  datatype MoveGraph = MoveGraph(root: Key, step: KeyMove, moves: seq<string>)

  /** The corner-key graph of the nine moves. */
  const CornerGraph: MoveGraph := MoveGraph(GoalKey, KeyStep, MoveNames)

  /** The key reached from the root by playing the moves of `ms` in order. */
  function Walk(g: MoveGraph, ms: seq<string>): Key
    decreases |ms|
  {
    if ms == [] then g.root else g.step(Walk(g, ms[..|ms| - 1]), ms[|ms| - 1])
  }

  /** Every move of `ms` is one of the graph's moves. */
  predicate IsPath(g: MoveGraph, ms: seq<string>) {
    AllIn(ms, g.moves)
  }

  /** A walk one move longer ends one step further. */
  lemma WalkSnoc(g: MoveGraph, ms: seq<string>, m: string)
    ensures Walk(g, ms + [m]) == g.step(Walk(g, ms), m)
    ensures IsPath(g, ms) && m in g.moves ==> IsPath(g, ms + [m])
  {
    assert (ms + [m])[..|ms|] == ms;
  }

  /** `k` is reached from the root by a walk of exactly n moves. */
  ghost predicate ReachedIn(g: MoveGraph, k: Key, n: int) {
    exists ms {:trigger IsPath(g, ms)} :: IsPath(g, ms) && |ms| == n && Walk(g, ms) == k
  }

  /** One more move from a key reached in n moves reaches its successor in n + 1. */
  lemma ReachedStep(g: MoveGraph, k: Key, n: int, m: string)
    requires ReachedIn(g, k, n) && m in g.moves
    ensures ReachedIn(g, g.step(k, m), n + 1)
  {
    var ms :| IsPath(g, ms) && |ms| == n && Walk(g, ms) == k;
    WalkSnoc(g, ms, m);
    assert |ms + [m]| == n + 1;
  }

  /** The keys reachable from the root in at most n moves: a finite set. */
  ghost function Within(g: MoveGraph, n: int): set<Key>
    decreases n
  {
    if n < 0 then {}
    else if n == 0 then {g.root}
    else
      var prev := Within(g, n - 1);
      prev + set k, m | k in prev && m in g.moves :: g.step(k, m)
  }

  /** Every walk of at most n moves ends in `Within(g, n)`. */
  lemma {:induction false} WalkWithin(g: MoveGraph, ms: seq<string>, n: int)
    requires IsPath(g, ms) && |ms| <= n
    ensures Walk(g, ms) in Within(g, n)
    decreases n
  {
    if n > 0 && |ms| < n {
      WalkWithin(g, ms, n - 1);
    } else if n > 0 {
      var q := ms[..|ms| - 1];
      assert IsPath(g, q) by {
        forall i | 0 <= i < |q| ensures q[i] in g.moves {
          assert q[i] == ms[i];
        }
      }
      WalkWithin(g, q, n - 1);
      var prev := Within(g, n - 1);
      assert Walk(g, ms) in set k, m | k in prev && m in g.moves :: g.step(k, m);
    }
  }

  // ---------------------------------------------------------------- the distance table

  /**
   * `db` is the table of least move counts up to `bound`: every stored key is reached by a
   * walk of exactly its stored length, no longer than `bound`, and every walk of at most
   * `bound` moves ends at a stored key stored no deeper than the walk is long.
   */
  ghost predicate IsDistanceTable(g: MoveGraph, db: map<Key, nat>, bound: int) {
    && (forall k :: k in db ==> db[k] <= bound && ReachedIn(g, k, db[k]))
    && (forall ms {:trigger IsPath(g, ms)} :: IsPath(g, ms) && |ms| <= bound ==> Walk(g, ms) in db && db[Walk(g, ms)] <= |ms|)
  }

  /** A key reached in n <= bound moves is stored, at n or less. */
  lemma TableLeast(g: MoveGraph, db: map<Key, nat>, bound: int, k: Key, n: int)
    requires IsDistanceTable(g, db, bound) && ReachedIn(g, k, n) && n <= bound
    ensures k in db && db[k] <= n
  {
    var ms :| IsPath(g, ms) && |ms| == n && Walk(g, ms) == k;
  }

  /** The root is stored at distance 0 whenever the bound admits it. */
  lemma TableRootAtZero(g: MoveGraph, db: map<Key, nat>, bound: int)
    requires IsDistanceTable(g, db, bound) && bound >= 0
    ensures g.root in db && db[g.root] == 0
  {
    assert IsPath(g, []) && Walk(g, []) == g.root;
  }

  /**
   * Every stored key at distance d > 0 is one move from a stored key at distance d - 1:
   * the breadth-first search only ever stores successors of stored keys.
   */
  lemma DistanceTablePredecessor(g: MoveGraph, db: map<Key, nat>, bound: int, k: Key) returns (p: Key, m: string)
    requires IsDistanceTable(g, db, bound) && k in db && db[k] > 0
    ensures p in db && m in g.moves && db[p] == db[k] - 1 && g.step(p, m) == k
  {
    var ms :| IsPath(g, ms) && |ms| == db[k] && Walk(g, ms) == k;
    var q := ms[..|ms| - 1];
    m := ms[|ms| - 1];
    p := Walk(g, q);
    assert ms == q + [m];
    assert IsPath(g, q) by {
      forall i | 0 <= i < |q| ensures q[i] in g.moves {
        assert q[i] == ms[i];
      }
    }
    assert p in db && db[p] <= db[k] - 1;
    var r :| IsPath(g, r) && |r| == db[p] && Walk(g, r) == p;
    WalkSnoc(g, r, m);
    assert db[k] <= db[p] + 1;
  }

  // ---------------------------------------------------------------- breadth-first search

  /** Each queued state is well formed and its key is reached in exactly its recorded depth. */
  ghost predicate QueueSound(g: MoveGraph, queue: seq<(Cube, nat)>) {
    forall i :: 0 <= i < |queue| ==> queue[i].0.WellFormed() && ReachedIn(g, queue[i].0.CornerKey(), queue[i].1)
  }

  /** FIFO order: queued depths never decrease, and all lie in `level .. level + 1`. */
  predicate QueueLayered(queue: seq<(Cube, nat)>, level: nat) {
    && (forall i :: 0 <= i < |queue| ==> level <= queue[i].1 <= level + 1)
    && (forall i, j :: 0 <= i < j < |queue| ==> queue[i].1 <= queue[j].1)
  }

  /** Some queued state has key `k` at a depth of at most `bound`. */
  predicate Queued(queue: seq<(Cube, nat)>, k: Key, bound: int) {
    exists i :: 0 <= i < |queue| && queue[i].0.CornerKey() == k && queue[i].1 <= bound
  }

  /** What the search has established about its table, whatever the queue holds. */
  ghost predicate TableSound(g: MoveGraph, db: map<Key, nat>, level: int, maxDepth: int) {
    forall k :: k in db ==> ReachedIn(g, k, db[k]) && db[k] <= level && db[k] <= maxDepth
  }

  /** The successor of stored key `k` by `m` is stored no deeper than one past it, or queued at that depth. */
  predicate SuccessorHandled(g: MoveGraph, db: map<Key, nat>, queue: seq<(Cube, nat)>, k: Key, m: string)
    requires k in db
  {
    var next := g.step(k, m);
    (next in db && db[next] <= db[k] + 1) || Queued(queue, next, db[k] + 1)
  }

  /** Every successor of stored key `k` is handled, unless `k` is stored at `maxDepth` or deeper. */
  predicate ClosedAt(g: MoveGraph, db: map<Key, nat>, queue: seq<(Cube, nat)>, maxDepth: int, k: Key)
    requires k in db
  {
    forall m {:trigger SuccessorHandled(g, db, queue, k, m)} :: m in g.moves && db[k] < maxDepth ==> SuccessorHandled(g, db, queue, k, m)
  }

  /** Every stored key is closed. */
  predicate Closed(g: MoveGraph, db: map<Key, nat>, queue: seq<(Cube, nat)>, maxDepth: int) {
    forall k {:trigger ClosedAt(g, db, queue, maxDepth, k)} :: k in db ==> ClosedAt(g, db, queue, maxDepth, k)
  }

  /** Until the root is stored it is the only queued state (or the bound is negative); then it is stored at 0. */
  predicate RootHandled(g: MoveGraph, db: map<Key, nat>, queue: seq<(Cube, nat)>, maxDepth: int) {
    && (db == map[] ==> maxDepth < 0 || (|queue| == 1 && queue[0].0.CornerKey() == g.root && queue[0].1 == 0))
    && (db != map[] ==> g.root in db && db[g.root] == 0)
  }

  /** The invariant of the search loop. */
  ghost predicate Searching(g: MoveGraph, db: map<Key, nat>, queue: seq<(Cube, nat)>, level: nat, maxDepth: int) {
    && QueueSound(g, queue) && QueueLayered(queue, level)
    && TableSound(g, db, level, maxDepth)
    && Closed(g, db, queue, maxDepth)
    && RootHandled(g, db, queue, maxDepth)
  }

  /**
   * The invariant of the successor loop of stored key `key` at depth `level`: the first `i`
   * moves have been handled, every other stored key is closed.
   */
  ghost predicate Expanding(g: MoveGraph, db: map<Key, nat>, queue: seq<(Cube, nat)>, level: nat, maxDepth: int,
                            key: Key, i: nat) {
    && key in db && db[key] == level && i <= |g.moves|
    && g.root in db && db[g.root] == 0
    && QueueSound(g, queue) && QueueLayered(queue, level)
    && TableSound(g, db, level, maxDepth)
    && (forall k {:trigger ClosedAt(g, db, queue, maxDepth, k)} :: k in db && k != key ==> ClosedAt(g, db, queue, maxDepth, k))
    && (forall j :: 0 <= j < i && level < maxDepth ==> SuccessorHandled(g, db, queue, key, g.moves[j]))
  }

  /**
   * `generate_corner_pattern_database` without its cache: breadth-first search from the
   * goal state.  A dequeued state is skipped when its key was already seen or its depth
   * exceeds `maxDepth`; otherwise its key is stored with its depth and all nine successors
   * whose keys are not yet seen are queued one level deeper.
   */
  method GenerateCornerPatternDatabase(maxDepth: int) returns (db: map<Key, nat>)
    ensures IsDistanceTable(CornerGraph, db, maxDepth)
    ensures forall k :: k in db ==> db[k] <= maxDepth
    ensures maxDepth >= 0 ==> GoalKey in db && db[GoalKey] == 0
    ensures maxDepth < 0 ==> db == map[]
  {
    var queue: seq<(Cube, nat)> := [(Goal, 0)];
    var visited: set<Key> := {};
    db := map[];
    ghost var level: nat := 0;
    SearchStarts(CornerGraph, Goal, maxDepth);
    MoveNamesMatchTable();
    while |queue| > 0
      invariant visited == db.Keys
      invariant Searching(CornerGraph, db, queue, level, maxDepth)
      decreases |Within(CornerGraph, maxDepth) - visited|, |queue|
    {
      var current, depth := queue[0].0, queue[0].1;
      var key := current.CornerKey();
      if key in visited || depth > maxDepth {
        SkipStep(CornerGraph, db, queue, level, maxDepth);
        queue := queue[1..];
        level := depth;
        continue;
      }
      ghost var (dbBefore, queueBefore, levelBefore, visitedBefore) := (db, queue, level, visited);
      visited := visited + {key};
      db := db[key := depth];
      queue := queue[1..];
      level := depth;
      AddStep(CornerGraph, dbBefore, queueBefore, levelBefore, maxDepth, key, depth, db, queue);
      StoringKeepsKeys(visitedBefore, dbBefore, key, depth);
      StoringShrinks(Within(CornerGraph, maxDepth), visitedBefore, key);
      ghost var expanded := queue;
      queue := QueueSuccessors(current, depth, visited, queue);
      ExpandCorner(db, expanded, level, maxDepth, key, current, visited);
    }
    SearchDone(CornerGraph, db, level, maxDepth);
  }

  /**
   * The states the successor loop queues for state `c` dequeued at `depth`: for each move of
   * `moves` in order, the state it leads to, one level deeper, unless its key is in `visited`.
   */
  function Successors(c: Cube, depth: nat, visited: set<Key>, moves: seq<string>): (r: seq<(Cube, nat)>)
    requires c.WellFormed() && forall j :: 0 <= j < |moves| ==> Defined(moves[j])
    ensures |r| <= |moves|
    ensures forall j :: 0 <= j < |r| ==> r[j].1 == depth + 1 && r[j].0.CornerKey() !in visited
    decreases |moves|
  {
    if moves == [] then []
    else
      var rest := Successors(c, depth, visited, moves[..|moves| - 1]);
      var next := Apply(c, moves[|moves| - 1]).value;
      if next.CornerKey() in visited then rest else rest + [(next, depth + 1)]
  }

  /**
   * The successor loop of the search: for each of the nine moves in order, the state the
   * move leads to from `current` is queued one level deeper unless its key is in `visited`.
   */
  method QueueSuccessors(current: Cube, depth: nat, visited: set<Key>, queue: seq<(Cube, nat)>)
    returns (queue': seq<(Cube, nat)>)
    requires current.WellFormed()
    ensures queue' == queue + Successors(current, depth, visited, MoveNames)
  {
    MoveNamesMatchTable();
    queue' := queue;
    var moves := MoveNames;
    var i := 0;
    while i < |moves|
      invariant 0 <= i <= |moves|
      invariant queue' == queue + Successors(current, depth, visited, moves[..i])
    {
      var next := Apply(current, moves[i]).value;
      ghost var before := queue';
      if next.CornerKey() !in visited {
        queue' := queue' + [(next, depth + 1)];
      }
      QueueStep(current, depth, visited, moves, i, queue, before, queue');
      i := i + 1;
    }
    assert moves[..i] == moves;
  }

  /** One pass of the successor loop keeps the queue equal to the successors seen so far. */
  lemma QueueStep(c: Cube, depth: nat, visited: set<Key>, moves: seq<string>, i: nat,
                  queue: seq<(Cube, nat)>, before: seq<(Cube, nat)>, after: seq<(Cube, nat)>)
    requires c.WellFormed() && i < |moves| && forall j :: 0 <= j < |moves| ==> Defined(moves[j])
    requires before == queue + Successors(c, depth, visited, moves[..i])
    requires var next := Apply(c, moves[i]).value;
      after == if next.CornerKey() in visited then before else before + [(next, depth + 1)]
    ensures after == queue + Successors(c, depth, visited, moves[..i + 1])
  {
    SuccessorsSnoc(c, depth, visited, moves, i);
  }

  /** The successors over the first i + 1 moves: those over the first i, then move i's if its key is new. */
  lemma SuccessorsSnoc(c: Cube, depth: nat, visited: set<Key>, moves: seq<string>, i: nat)
    requires c.WellFormed() && i < |moves| && forall j :: 0 <= j < |moves| ==> Defined(moves[j])
    ensures var next := Apply(c, moves[i]).value;
      Successors(c, depth, visited, moves[..i + 1]) ==
        Successors(c, depth, visited, moves[..i]) + if next.CornerKey() in visited then [] else [(next, depth + 1)]
  {
    assert moves[..i + 1][..i] == moves[..i];
  }

  /** Queuing all nine successors of the stored key closes it. */
  lemma ExpandCorner(db: map<Key, nat>, queue: seq<(Cube, nat)>, level: nat, maxDepth: int,
                     key: Key, c: Cube, visited: set<Key>)
    requires visited == db.Keys
    requires Expanding(CornerGraph, db, queue, level, maxDepth, key, 0)
    requires c.WellFormed() && c.CornerKey() == key
    ensures Searching(CornerGraph, db, queue + Successors(c, level, visited, MoveNames), level, maxDepth)
  {
    MoveNamesMatchTable();
    CornerSuccessors(c);
    ExpandAll(CornerGraph, db, queue, level, maxDepth, key, c, visited, |MoveNames|);
    assert MoveNames[..|MoveNames|] == MoveNames;
    ExpandDone(CornerGraph, db, queue + Successors(c, level, visited, MoveNames), level, maxDepth, key);
  }

  /** Each move turns the key of `c` as the corner graph's step does. */
  lemma CornerSuccessors(c: Cube)
    requires c.WellFormed()
    ensures forall j :: 0 <= j < |CornerGraph.moves| ==>
      && Apply(c, CornerGraph.moves[j]).Success?
      && Apply(c, CornerGraph.moves[j]).value.WellFormed()
      && Apply(c, CornerGraph.moves[j]).value.CornerKey() == CornerGraph.step(c.CornerKey(), CornerGraph.moves[j])
  {
    forall j | 0 <= j < |MoveNames| 
      ensures Apply(c, MoveNames[j]).Success? && Apply(c, MoveNames[j]).value.WellFormed()
      ensures Apply(c, MoveNames[j]).value.CornerKey() == CornerGraph.step(c.CornerKey(), CornerGraph.moves[j])
    {
      SuccessorKey(c, j);
    }
  }

  /**
   * Queuing the successors of the first n moves, each whose key is not stored, handles
   * those n moves.
   */
  lemma {:induction false} ExpandAll(g: MoveGraph, db: map<Key, nat>, queue: seq<(Cube, nat)>, level: nat, maxDepth: int,
                                     key: Key, c: Cube, visited: set<Key>, n: nat)
    requires n <= |g.moves| && visited == db.Keys
    requires forall j :: 0 <= j < |g.moves| ==> Defined(g.moves[j])
    requires Expanding(g, db, queue, level, maxDepth, key, 0)
    requires c.WellFormed() && c.CornerKey() == key
    requires forall j :: 0 <= j < |g.moves| ==>
      && Apply(c, g.moves[j]).Success?
      && Apply(c, g.moves[j]).value.WellFormed()
      && Apply(c, g.moves[j]).value.CornerKey() == g.step(key, g.moves[j])
    ensures Expanding(g, db, queue + Successors(c, level, visited, g.moves[..n]), level, maxDepth, key, n)
    decreases n
  {
    if n == 0 {
      assert queue + Successors(c, level, visited, g.moves[..0]) == queue;
    } else {
      ExpandAll(g, db, queue, level, maxDepth, key, c, visited, n - 1);
      ExpandNext(g, db, queue, level, maxDepth, key, c, visited, n);
    }
  }

  /** Handling move n - 1 of the successor loop extends the handled moves to the first n. */
  lemma ExpandNext(g: MoveGraph, db: map<Key, nat>, queue: seq<(Cube, nat)>, level: nat, maxDepth: int,
                   key: Key, c: Cube, visited: set<Key>, n: nat)
    requires 0 < n <= |g.moves| && visited == db.Keys
    requires forall j :: 0 <= j < n ==> Defined(g.moves[j])
    requires c.WellFormed()
    requires Expanding(g, db, queue + Successors(c, level, visited, g.moves[..n - 1]), level, maxDepth, key, n - 1)
    requires Apply(c, g.moves[n - 1]).Success?
    requires Apply(c, g.moves[n - 1]).value.WellFormed()
    requires Apply(c, g.moves[n - 1]).value.CornerKey() == g.step(key, g.moves[n - 1])
    ensures Expanding(g, db, queue + Successors(c, level, visited, g.moves[..n]), level, maxDepth, key, n)
  {
    var before := Successors(c, level, visited, g.moves[..n - 1]);
    var next := Apply(c, g.moves[n - 1]).value;
    assert g.moves[..n][..n - 1] == g.moves[..n - 1];
    assert queue + (before + [(next, level + 1)]) == (queue + before) + [(next, level + 1)];
    ExpandStep(g, db, queue + before, level, maxDepth, key, n - 1, next, queue + Successors(c, level, visited, g.moves[..n]));
  }

  /** The successor the search computes for move i has the key `KeyStep` gives. */
  lemma SuccessorKey(c: Cube, i: int)
    requires c.WellFormed() && 0 <= i < |MoveNames|
    ensures Apply(c, MoveNames[i]).Success? && Apply(c, MoveNames[i]).value.WellFormed()
    ensures Apply(c, MoveNames[i]).value.CornerKey() == CornerGraph.step(c.CornerKey(), CornerGraph.moves[i])
  {
    MoveNamesMatchTable();
    KeyOfApply(c, MoveNames[i]);
  }

  /** Marking a key visited and storing it keep the visited set equal to the stored keys. */
  lemma StoringKeepsKeys(visited: set<Key>, db: map<Key, nat>, key: Key, depth: nat)
    requires visited == db.Keys
    ensures visited + {key} == db[key := depth].Keys
  {
  }

  /** Storing a key of the target set that was not yet stored leaves fewer keys to store. */
  lemma StoringShrinks(target: set<Key>, visited: set<Key>, key: Key)
    requires key in target && key !in visited
    ensures |target - (visited + {key})| < |target - visited|
  {
    assert target - (visited + {key}) == (target - visited) - {key};
  }

  /** The search starts with only the root queued and an empty table. */
  lemma SearchStarts(g: MoveGraph, c: Cube, maxDepth: int)
    requires c.WellFormed() && c.CornerKey() == g.root
    ensures Searching(g, map[], [(c, 0)], 0, maxDepth)
  {
    assert IsPath(g, []) && Walk(g, []) == g.root;
  }

  /** Dequeuing keeps the queue sound and layered, at the dequeued state's depth. */
  lemma QueueTail(g: MoveGraph, queue: seq<(Cube, nat)>, level: nat)
    requires |queue| > 0 && QueueSound(g, queue) && QueueLayered(queue, level)
    ensures QueueSound(g, queue[1..]) && QueueLayered(queue[1..], queue[0].1)
  {
    var rest := queue[1..];
    forall i | 0 <= i < |rest| ensures queue[0].1 <= rest[i].1 <= queue[0].1 + 1 {
      assert rest[i] == queue[i + 1];
    }
    forall i, j | 0 <= i < j < |rest| ensures rest[i].1 <= rest[j].1 {
      assert rest[i] == queue[i + 1] && rest[j] == queue[j + 1];
    }
    forall i | 0 <= i < |rest| ensures rest[i].0.WellFormed() && ReachedIn(g, rest[i].0.CornerKey(), rest[i].1) {
      assert rest[i] == queue[i + 1];
    }
  }

  /** Dropping a state that is skipped keeps the invariant, at the dropped state's depth. */
  lemma SkipStep(g: MoveGraph, db: map<Key, nat>, queue: seq<(Cube, nat)>, level: nat, maxDepth: int)
    requires Searching(g, db, queue, level, maxDepth) && |queue| > 0
    requires queue[0].0.CornerKey() in db || queue[0].1 > maxDepth
    ensures Searching(g, db, queue[1..], queue[0].1, maxDepth)
  {
    SkipKeepsClosed(g, db, queue, maxDepth, level);
    QueueTail(g, queue, level);
  }

  /** Storing the dequeued key at its depth starts the expansion of that key. */
  lemma AddStep(g: MoveGraph, db: map<Key, nat>, queue: seq<(Cube, nat)>, level: nat, maxDepth: int,
                key: Key, depth: nat, db': map<Key, nat>, queue': seq<(Cube, nat)>)
    requires Searching(g, db, queue, level, maxDepth) && |queue| > 0
    requires key == queue[0].0.CornerKey() && depth == queue[0].1
    requires key !in db && depth <= maxDepth
    requires db' == db[key := depth] && queue' == queue[1..]
    ensures queue[0].0.WellFormed()
    ensures key in Within(g, maxDepth)
    ensures Expanding(g, db', queue', depth, maxDepth, key, 0)
  {
    var ms :| IsPath(g, ms) && |ms| == depth && Walk(g, ms) == key;
    WalkWithin(g, ms, maxDepth);
    AddKeepsClosed(g, db, queue, maxDepth, db');
    QueueTail(g, queue, level);
    StoreKeepsSound(g, db, key, level, depth, maxDepth);
    if db == map[] {
      assert key == g.root && depth == 0;
    } else {
      assert g.root in db && key != g.root;
    }
  }

  /** Storing a key reached in `depth` moves, at `depth`, keeps the table sound at that level. */
  lemma StoreKeepsSound(g: MoveGraph, db: map<Key, nat>, key: Key, level: nat, depth: nat, maxDepth: int)
    requires TableSound(g, db, level, maxDepth) && level <= depth <= maxDepth && ReachedIn(g, key, depth)
    ensures TableSound(g, db[key := depth], depth, maxDepth)
  {
  }

  /** Handling one successor: queue it unless its key is stored. */
  lemma ExpandStep(g: MoveGraph, db: map<Key, nat>, queue: seq<(Cube, nat)>, level: nat, maxDepth: int,
                   key: Key, i: nat, next: Cube, queue': seq<(Cube, nat)>)
    requires Expanding(g, db, queue, level, maxDepth, key, i) && i < |g.moves|
    requires next.WellFormed() && next.CornerKey() == g.step(key, g.moves[i])
    requires queue' == if next.CornerKey() in db then queue else queue + [(next, level + 1)]
    ensures Expanding(g, db, queue', level, maxDepth, key, i + 1)
  {
    if next.CornerKey() in db {
      ExpandStored(g, db, queue, level, maxDepth, key, i);
    } else {
      ExpandNew(g, db, queue, level, maxDepth, key, i, next);
    }
  }

  /** A successor whose key is stored is handled already: it is stored no deeper than the current level. */
  lemma ExpandStored(g: MoveGraph, db: map<Key, nat>, queue: seq<(Cube, nat)>, level: nat, maxDepth: int,
                     key: Key, i: nat)
    requires Expanding(g, db, queue, level, maxDepth, key, i) && i < |g.moves|
    requires g.step(key, g.moves[i]) in db
    ensures Expanding(g, db, queue, level, maxDepth, key, i + 1)
  {
    assert SuccessorHandled(g, db, queue, key, g.moves[i]);
  }

  /** A successor whose key is new is queued one level deeper, which handles it. */
  lemma ExpandNew(g: MoveGraph, db: map<Key, nat>, queue: seq<(Cube, nat)>, level: nat, maxDepth: int,
                  key: Key, i: nat, next: Cube)
    requires Expanding(g, db, queue, level, maxDepth, key, i) && i < |g.moves|
    requires next.WellFormed() && next.CornerKey() == g.step(key, g.moves[i]) && next.CornerKey() !in db
    ensures Expanding(g, db, queue + [(next, level + 1)], level, maxDepth, key, i + 1)
  {
    var x := (next, level + 1);
    var queue' := queue + [x];
    ReachedStep(g, key, level, g.moves[i]);
    AppendKeepsClosed(g, db, queue, maxDepth, key, i, x);
    QueueAppend(g, queue, level, x);
    assert queue'[|queue'| - 1] == x;
    assert Queued(queue', next.CornerKey(), db[key] + 1);
  }

  /** Queuing a state reached in one move more than the current level keeps the queue sound and layered. */
  lemma QueueAppend(g: MoveGraph, queue: seq<(Cube, nat)>, level: nat, x: (Cube, nat))
    requires QueueSound(g, queue) && QueueLayered(queue, level)
    requires x.0.WellFormed() && ReachedIn(g, x.0.CornerKey(), x.1) && x.1 == level + 1
    ensures QueueSound(g, queue + [x]) && QueueLayered(queue + [x], level)
  {
    var q := queue + [x];
    forall j | 0 <= j < |q| ensures q[j] == if j < |queue| then queue[j] else x {
    }
  }

  /** Once all moves are handled the key is closed too. */
  lemma ExpandDone(g: MoveGraph, db: map<Key, nat>, queue: seq<(Cube, nat)>, level: nat, maxDepth: int, key: Key)
    requires Expanding(g, db, queue, level, maxDepth, key, |g.moves|)
    ensures Searching(g, db, queue, level, maxDepth)
  {
    assert ClosedAt(g, db, queue, maxDepth, key) by {
      forall m | m in g.moves && db[key] < maxDepth
        ensures SuccessorHandled(g, db, queue, key, m)
      {
        var j :| 0 <= j < |g.moves| && g.moves[j] == m;
      }
    }
  }

  /** An empty queue ends the search with the distance table. */
  lemma SearchDone(g: MoveGraph, db: map<Key, nat>, level: nat, maxDepth: int)
    requires Searching(g, db, [], level, maxDepth)
    ensures IsDistanceTable(g, db, maxDepth)
    ensures forall k :: k in db ==> db[k] <= maxDepth
    ensures maxDepth >= 0 ==> g.root in db && db[g.root] == 0
    ensures maxDepth < 0 ==> db == map[]
  {
    DrainedQueueGivesTable(g, db, maxDepth);
  }

  /** Queuing one more state keeps every handled successor handled. */
  lemma AppendKeepsClosed(g: MoveGraph, db: map<Key, nat>, queue: seq<(Cube, nat)>, maxDepth: int,
                          key: Key, i: nat, x: (Cube, nat))
    requires forall k :: k in db && k != key ==> ClosedAt(g, db, queue, maxDepth, k)
    requires key in db && i < |g.moves|
    requires forall j :: 0 <= j < i && db[key] < maxDepth ==> SuccessorHandled(g, db, queue, key, g.moves[j])
    ensures forall k :: k in db && k != key ==> ClosedAt(g, db, queue + [x], maxDepth, k)
    ensures forall j :: 0 <= j < i && db[key] < maxDepth ==> SuccessorHandled(g, db, queue + [x], key, g.moves[j])
  {
    forall k, m | k in db && SuccessorHandled(g, db, queue, k, m)
      ensures SuccessorHandled(g, db, queue + [x], k, m)
    {
      var next := g.step(k, m);
      if !(next in db && db[next] <= db[k] + 1) {
        var i :| 0 <= i < |queue| && queue[i].0.CornerKey() == next && queue[i].1 <= db[k] + 1;
        assert (queue + [x])[i] == queue[i];
      }
    }
  }

  /** Dropping a state that is skipped keeps the table closed. */
  lemma SkipKeepsClosed(g: MoveGraph, db: map<Key, nat>, queue: seq<(Cube, nat)>, maxDepth: int, level: nat)
    requires |queue| > 0 && QueueLayered(queue, level) && TableSound(g, db, level, maxDepth)
    requires Closed(g, db, queue, maxDepth)
    requires queue[0].0.CornerKey() in db || queue[0].1 > maxDepth
    ensures Closed(g, db, queue[1..], maxDepth)
  {
    forall k, m | k in db && m in g.moves && db[k] < maxDepth
      ensures SuccessorHandled(g, db, queue[1..], k, m)
    {
      assert ClosedAt(g, db, queue, maxDepth, k);
      assert SuccessorHandled(g, db, queue, k, m);
      var next := g.step(k, m);
      if !(next in db && db[next] <= db[k] + 1) {
        var i :| 0 <= i < |queue| && queue[i].0.CornerKey() == next && queue[i].1 <= db[k] + 1;
        assert level <= queue[0].1;
        assert i != 0;
        assert queue[1..][i - 1] == queue[i];
      }
    }
  }

  /** Storing the dequeued key at its depth keeps every older key closed over the rest of the queue. */
  lemma AddKeepsClosed(g: MoveGraph, db: map<Key, nat>, queue: seq<(Cube, nat)>, maxDepth: int, db': map<Key, nat>)
    requires |queue| > 0
    requires Closed(g, db, queue, maxDepth)
    requires queue[0].0.CornerKey() !in db
    requires db' == db[queue[0].0.CornerKey() := queue[0].1]
    ensures forall k :: k in db' && k != queue[0].0.CornerKey() ==> ClosedAt(g, db', queue[1..], maxDepth, k)
  {
    var key := queue[0].0.CornerKey();
    forall k, m | k in db' && k != key && m in g.moves && db'[k] < maxDepth
      ensures SuccessorHandled(g, db', queue[1..], k, m)
    {
      assert ClosedAt(g, db, queue, maxDepth, k);
      assert SuccessorHandled(g, db, queue, k, m);
      var next := g.step(k, m);
      assert k in db && db'[k] == db[k];
      if next in db && db[next] <= db[k] + 1 {
        assert next in db' && db'[next] == db[next];
      } else {
        var i :| 0 <= i < |queue| && queue[i].0.CornerKey() == next && queue[i].1 <= db[k] + 1;
        if i == 0 {
          assert next == key && db'[next] == queue[0].1;
        } else {
          assert queue[1..][i - 1] == queue[i];
        }
      }
    }
  }

  /**
   * Once the queue is empty, a closed table that holds the root at 0 stores the end of
   * every walk of at most `maxDepth` moves, no deeper than the walk is long.
   */
  lemma {:induction false} DrainedQueueReaches(g: MoveGraph, db: map<Key, nat>, maxDepth: int, ms: seq<string>)
    requires Closed(g, db, [], maxDepth)
    requires g.root in db && db[g.root] == 0
    requires IsPath(g, ms) && |ms| <= maxDepth
    ensures Walk(g, ms) in db && db[Walk(g, ms)] <= |ms|
    decreases |ms|
  {
    if ms != [] {
      var q, m := ms[..|ms| - 1], ms[|ms| - 1];
      assert IsPath(g, q) by {
        forall i | 0 <= i < |q| ensures q[i] in g.moves {
          assert q[i] == ms[i];
        }
      }
      DrainedQueueReaches(g, db, maxDepth, q);
      var p := Walk(g, q);
      assert ClosedAt(g, db, [], maxDepth, p);
      assert SuccessorHandled(g, db, [], p, m);
    }
  }

  /** A sound, closed table left by an empty queue is the distance table. */
  lemma DrainedQueueGivesTable(g: MoveGraph, db: map<Key, nat>, maxDepth: int)
    requires TableSound(g, db, maxDepth, maxDepth)
    requires Closed(g, db, [], maxDepth)
    requires maxDepth >= 0 ==> g.root in db && db[g.root] == 0
    ensures IsDistanceTable(g, db, maxDepth)
  {
    forall ms | IsPath(g, ms) && |ms| <= maxDepth
      ensures Walk(g, ms) in db && db[Walk(g, ms)] <= |ms|
    {
      DrainedQueueReaches(g, db, maxDepth, ms);
    }
  }

  // ---------------------------------------------------------------- the heuristic

  /** Playing moves from the goal state walks the goal key through the corner graph. */
  lemma {:induction false} PlayFromGoal(ms: seq<string>)
    requires AllMoves(ms)
    ensures IsPath(CornerGraph, ms)
    ensures Play(Goal, ms).CornerKey() == Walk(CornerGraph, ms)
    decreases |ms|
  {
    GoalIsSolvedAndValid();
    if ms != [] {
      var q, m := ms[..|ms| - 1], ms[|ms| - 1];
      assert ms == q + [m];
      assert AllMoves(q) by {
        forall i | 0 <= i < |q| ensures q[i] in MoveNames {
          assert q[i] == ms[i];
        }
      }
      PlayFromGoal(q);
      PlaySnoc(Goal, q, m);
      KeyOfApply(Play(Goal, q), m);
    }
  }

  /**
   * A valid state with a solution of n moves has its corner key reached from the goal key
   * by a walk of n moves: the inverse of the solution.
   */
  lemma SolutionWalk(c: Cube, ms: seq<string>) returns (back: seq<string>)
    requires c.Valid() && AllMoves(ms) && Play(c, ms).IsSolved()
    ensures IsPath(CornerGraph, back) && |back| == |ms| && Walk(CornerGraph, back) == c.CornerKey()
  {
    SolvedIffGoal(Play(c, ms));
    PlayThenInverse(c, ms);
    back := InverseSequence(ms);
    PlayFromGoal(back);
  }

  /**
   * `corner_heuristic`: the stored distance of the state's corner key, or infinity when it is
   * not stored; a solved state scores 0 on every table that passes validation.
   */
  function CornerHeuristic(c: Cube, db: map<Key, nat>): (r: Cost)
    ensures r == Inf <==> c.CornerKey() !in db
    ensures c.IsSolved() && ValidatePatternDatabase(db) == Pass ==> r == Fin(0)
  {
    if c.CornerKey() in db then Fin(db[c.CornerKey()]) else Inf
  }

  /**
   * Within the table the heuristic does not overestimate: for a table of distances up to
   * `bound` and a valid state with a solution of n moves, a finite estimate is at most n,
   * and the estimate is finite whenever n <= bound.
   */
  lemma CornerHeuristicAdmissibleWithinBound(db: map<Key, nat>, bound: int, c: Cube, ms: seq<string>)
    requires IsDistanceTable(CornerGraph, db, bound)
    requires c.Valid() && AllMoves(ms) && Play(c, ms).IsSolved()
    ensures CornerHeuristic(c, db).Fin? ==> CornerHeuristic(c, db).n <= |ms|
    ensures |ms| <= bound ==> CornerHeuristic(c, db).Fin?
  {
    var back := SolutionWalk(c, ms);
  }

  /** The table the search builds with depth 0: the goal key alone, at distance 0. */
  lemma DepthZeroTable()
    ensures IsDistanceTable(CornerGraph, map[GoalKey := 0], 0)
    ensures forall db :: IsDistanceTable(CornerGraph, db, 0) ==> db == map[GoalKey := 0]
  {
    var db := map[GoalKey := 0];
    assert IsPath(CornerGraph, []) && Walk(CornerGraph, []) == GoalKey;
    forall ms | IsPath(CornerGraph, ms) && |ms| <= 0
      ensures Walk(CornerGraph, ms) in db && db[Walk(CornerGraph, ms)] <= |ms|
    {
      assert ms == [];
    }
    forall db' | IsDistanceTable(CornerGraph, db', 0) ensures db' == db {
      DepthZeroTableUnique(db');
    }
  }

  /** A distance table of depth 0 stores the goal key alone. */
  lemma DepthZeroTableUnique(db: map<Key, nat>)
    requires IsDistanceTable(CornerGraph, db, 0)
    ensures db == map[GoalKey := 0]
  {
    TableRootAtZero(CornerGraph, db, 0);
    forall k | k in db ensures k == GoalKey {
      var ms :| IsPath(CornerGraph, ms) && |ms| == db[k] && Walk(CornerGraph, ms) == k;
      assert ms == [];
    }
    assert db.Keys == {GoalKey};
  }

  /**
   * Beyond the table the infinite estimate overestimates: with the depth-0 table, the state
   * one `U` from the goal is solved by the single move `U'`, yet its estimate is infinity.
   */
  lemma CornerHeuristicOverestimatesBeyondBound()
    ensures IsDistanceTable(CornerGraph, map[GoalKey := 0], 0)
    ensures Apply(Goal, "U").Success?
    ensures var c := Apply(Goal, "U").value;
      && c.Valid() && AllMoves(["U'"]) && Play(c, ["U'"]).IsSolved()
      && CornerHeuristic(c, map[GoalKey := 0]) == Inf
  {
    DepthZeroTable();
    GoalIsSolvedAndValid();
    MoveNamesMatchTable();
    ApplyKeepsValid(Goal, "U");
    ApplyThenInverse(Goal, "U");
    var c := Apply(Goal, "U").value;
    assert InverseMove("U") == "U'";
    assert Play(c, ["U'"]) == Play(Apply(c, "U'").value, []);
    SolvedIffGoal(Play(c, ["U'"]));
    TableValid();
    assert Def("U") == MoveU;
    assert c.cornerPositions[0] == 1;
    assert c.CornerKey() != GoalKey;
  }

  /**
   * The heuristic with a finite estimate for keys missing from a table built to `maxDepth`:
   * one more than the depth, since such a key needs more moves than the table covers.
   */
  function BoundedCornerHeuristic(c: Cube, db: map<Key, nat>, maxDepth: int): (r: Cost)
    ensures r.Fin?
    ensures c.CornerKey() in db ==> r == CornerHeuristic(c, db)
    ensures c.CornerKey() !in db && maxDepth >= 0 ==> r.n > maxDepth
  {
    if c.CornerKey() in db then Fin(db[c.CornerKey()])
    else if maxDepth < 0 then Fin(0)
    else Fin(maxDepth + 1)
  }

  /**
   * The bounded heuristic never overestimates: for the distance table built to `maxDepth`
   * and a valid state with a solution of n moves, the estimate is finite and at most n.
   * On stored keys it agrees with `corner_heuristic`.
   */
  lemma BoundedCornerHeuristicAdmissible(db: map<Key, nat>, maxDepth: int, c: Cube, ms: seq<string>)
    requires IsDistanceTable(CornerGraph, db, maxDepth)
    requires c.Valid() && AllMoves(ms) && Play(c, ms).IsSolved()
    ensures BoundedCornerHeuristic(c, db, maxDepth).Fin?
    ensures BoundedCornerHeuristic(c, db, maxDepth).n <= |ms|
    ensures c.CornerKey() in db ==> BoundedCornerHeuristic(c, db, maxDepth) == CornerHeuristic(c, db)
  {
    var back := SolutionWalk(c, ms);
  }

  // ---------------------------------------------------------------- validation

  datatype DbError = MissingSolved | SolvedNotZero(distance: nat)

  /** `validate_pattern_database`: the goal key must be stored, at distance 0; otherwise the error says which. */
  function ValidatePatternDatabase(db: map<Key, nat>): (r: Outcome<DbError>)
    ensures r == Pass <==> GoalKey in db && db[GoalKey] == 0
    ensures r == Fail(MissingSolved) <==> GoalKey !in db
    ensures GoalKey in db && db[GoalKey] != 0 ==> r == Fail(SolvedNotZero(db[GoalKey]))
  {
    var solvedKey := Goal.CornerKey();
    if solvedKey !in db then Fail(MissingSolved)
    else if db[solvedKey] != 0 then Fail(SolvedNotZero(db[solvedKey]))
    else Pass
  }

  /**
   * Every distance table passes validation when its bound is at least 0; with a negative
   * bound it is empty and validation reports the missing goal key.
   */
  lemma DistanceTableValidates(db: map<Key, nat>, bound: int)
    requires IsDistanceTable(CornerGraph, db, bound)
    ensures bound >= 0 ==> ValidatePatternDatabase(db) == Pass
    ensures bound < 0 ==> ValidatePatternDatabase(db) == Fail(MissingSolved)
  {
    if bound >= 0 {
      TableRootAtZero(CornerGraph, db, bound);
    }
  }
}
