/**
 * The puzzle state of cube_state.py: corner positions and orientations (8 slots) and
 * edge positions and orientations (12 slots).  The edge arrays are carried but no move
 * touches them.  `Cube` is the state as a value; `CubeState` is the mutable object the
 * move function updates in place.
 */
module CubeStates {

  /** 0, 1, ..., n-1 (`list(range(n))`). */
  function Iota(n: nat): (s: seq<int>)
    ensures |s| == n && forall i :: 0 <= i < n ==> s[i] == i
  {
    seq(n, i => i)
  }

  /** n zeros (`[0] * n`). */
  function Zeros(n: nat): (s: seq<int>)
    ensures |s| == n && forall i :: 0 <= i < n ==> s[i] == 0
  {
    seq(n, _ => 0)
  }

  /** `s` lists each of 0..n-1 exactly once. */
  predicate IsPermutation(s: seq<int>, n: nat) {
    && |s| == n
    && (forall i :: 0 <= i < n ==> 0 <= s[i] < n)
    && (forall i, j :: 0 <= i < j < n ==> s[i] != s[j])
  }

  /**
   * A corner key: the tuple of the 8 corner positions followed by the 8 corner
   * orientations, held as its two halves (`Entries` is the tuple itself).
   */
  datatype Key = Key(positions: seq<int>, orientations: seq<int>) {
    /** The key as one tuple: positions, then orientations. */
    function Entries(): seq<int> {
      positions + orientations
    }
  }

  datatype Cube = Cube(
    cornerPositions: seq<int>,
    cornerOrientations: seq<int>,
    edgePositions: seq<int>,
    edgeOrientations: seq<int>)
  {
    /** The array lengths every state has. */
    predicate WellFormed() {
      |cornerPositions| == 8 && |cornerOrientations| == 8 &&
      |edgePositions| == 12 && |edgeOrientations| == 12
    }

    /**
     * The invariant every state built from the goal by moves keeps: the corner positions
     * are a permutation of 0..7, every corner twist is 0, 1 or 2, and the edges are at rest.
     */
    predicate Valid() {
      && WellFormed()
      && IsPermutation(cornerPositions, 8)
      && (forall i :: 0 <= i < 8 ==> 0 <= cornerOrientations[i] < 3)
      && edgePositions == Iota(12)
      && edgeOrientations == Zeros(12)
    }

    /**
     * `is_solved`: all four arrays are the identity or all zero, so it holds for the goal
     * state alone, and a solved state satisfies the invariant.
     */
    predicate IsSolved(): (r: bool)
      ensures r <==> this == Goal
      ensures r ==> Valid()
    {
      && cornerPositions == Iota(8)
      && cornerOrientations == Zeros(8)
      && edgePositions == Iota(12)
      && edgeOrientations == Zeros(12)
    }

    /**
     * `get_corner_key`: the corner positions followed by the corner orientations; for a
     * well-formed state that is a 16-entry tuple whose halves are the two corner arrays.
     */
    function CornerKey(): (k: Key)
      ensures WellFormed() ==>
        |k.Entries()| == 16 && k.Entries()[..8] == cornerPositions && k.Entries()[8..] == cornerOrientations
    {
      Key(cornerPositions, cornerOrientations)
    }
  }

  /** The state `CubeState()` builds. */
  const Goal: Cube := Cube(Iota(8), Zeros(8), Iota(12), Zeros(12))

  /** The corner key of the goal state. */
  const GoalKey: Key := Key(Iota(8), Zeros(8))

  lemma GoalIsSolvedAndValid()
    ensures Goal.IsSolved() && Goal.Valid()
    ensures Goal.CornerKey() == GoalKey
    ensures |GoalKey.Entries()| == 16
    ensures forall i :: 0 <= i < 8 ==> GoalKey.Entries()[i] == i
    ensures forall i :: 8 <= i < 16 ==> GoalKey.Entries()[i] == 0
  {
  }

  /** `is_solved` holds exactly for the goal state. */
  lemma SolvedIffGoal(c: Cube)
    ensures c.IsSolved() <==> c == Goal
  {
  }

  /** The key has 16 entries: the 8 positions, then the 8 orientations. */
  lemma CornerKeyLayout(c: Cube)
    requires c.WellFormed()
    ensures |c.CornerKey().Entries()| == 16
    ensures c.CornerKey().Entries()[..8] == c.cornerPositions
    ensures c.CornerKey().Entries()[8..] == c.cornerOrientations
  {
  }

  /** For keys of two 8-entry halves the tuple and the pair carry the same information. */
  lemma EntriesDetermineKey(a: Key, b: Key)
    requires |a.positions| == 8 && |b.positions| == 8
    ensures a.Entries() == b.Entries() <==> a == b
  {
    if a.Entries() == b.Entries() {
      assert a.positions == a.Entries()[..8] && b.positions == b.Entries()[..8];
      assert a.orientations == a.Entries()[8..] && b.orientations == b.Entries()[8..];
    }
  }

  /** Two states have the same corner key exactly when their corner arrays agree; edges play no part. */
  lemma CornerKeyDeterminesCorners(a: Cube, b: Cube)
    requires a.WellFormed() && b.WellFormed()
    ensures a.CornerKey().Entries() == b.CornerKey().Entries() <==>
      a.cornerPositions == b.cornerPositions && a.cornerOrientations == b.cornerOrientations
  {
    EntriesDetermineKey(a.CornerKey(), b.CornerKey());
  }

  /** The object form of the state, whose corner arrays moves reassign. */
  class CubeState {
    var cornerPositions: seq<int>
    var cornerOrientations: seq<int>
    var edgePositions: seq<int>
    var edgeOrientations: seq<int>

    /** The state's current value. */
    function Value(): Cube
      reads this
    {
      Cube(cornerPositions, cornerOrientations, edgePositions, edgeOrientations)
    }

    /** `CubeState()`: the goal state. */
    constructor ()
      ensures Value() == Goal
      ensures Value().IsSolved() && Value().Valid()
    {
      cornerPositions := Iota(8);
      cornerOrientations := Zeros(8);
      edgePositions := Iota(12);
      edgeOrientations := Zeros(12);
    }

    /** `copy`: a new object with the same arrays; later writes to either leave the other alone. */
    method Copy() returns (c: CubeState)
      ensures fresh(c)
      ensures c.Value() == Value()
      ensures Equals(c) && c.Equals(this)
    {
      c := new CubeState();
      c.cornerPositions := cornerPositions;
      c.cornerOrientations := cornerOrientations;
      c.edgePositions := edgePositions;
      c.edgeOrientations := edgeOrientations;
    }

    /** `__eq__`: false for anything that is not a CubeState, else field-wise equality. */
    predicate Equals(other: object?)
      reads this, other
      ensures Equals(other) <==> other is CubeState && (other as CubeState).Value() == Value()
    {
      other is CubeState &&
      var o := other as CubeState;
      && cornerPositions == o.cornerPositions
      && cornerOrientations == o.cornerOrientations
      && edgePositions == o.edgePositions
      && edgeOrientations == o.edgeOrientations
    }
  }
}
