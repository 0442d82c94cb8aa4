/**
 * The move algebra of move_engine.py: nine named corner moves, each a permutation of the
 * eight corner slots plus a twist added (mod 3) to the corner moved into each slot.
 * The source's registry of closures (`MoveEngine.moves`) becomes the pure function
 * `Apply`; `ApplyMove` is the in-place update of a `CubeState` that the closures perform.
 */
module MoveEngine {
  import opened Wrappers
  import opened CubeStates

  /** `MOVE_NAMES`. */
  const MoveNames: seq<string> := ["U", "U'", "U2", "R", "R'", "R2", "F", "F'", "F2"]

  /** One entry of `CORNER_MOVES`: slot i takes the corner from slot perm[i] and adds orient[i]. */
  datatype MoveDef = MoveDef(perm: seq<int>, orient: seq<int>)

  const NoTwist: seq<int> := [0, 0, 0, 0, 0, 0, 0, 0]

  const MoveU: MoveDef  := MoveDef([1, 2, 3, 0, 4, 5, 6, 7], NoTwist)
  const MoveU': MoveDef := MoveDef([3, 0, 1, 2, 4, 5, 6, 7], NoTwist)
  const MoveU2: MoveDef := MoveDef([2, 3, 0, 1, 4, 5, 6, 7], NoTwist)
  const MoveR: MoveDef  := MoveDef([4, 0, 2, 3, 5, 1, 6, 7], [1, 1, 0, 0, 1, 1, 0, 0])
  const MoveR': MoveDef := MoveDef([1, 5, 2, 3, 0, 4, 6, 7], [2, 2, 0, 0, 2, 2, 0, 0])
  const MoveR2: MoveDef := MoveDef([5, 4, 2, 3, 1, 0, 6, 7], NoTwist)
  const MoveF: MoveDef  := MoveDef([3, 1, 2, 7, 0, 5, 6, 4], [1, 0, 0, 1, 1, 0, 0, 1])
  const MoveF': MoveDef := MoveDef([4, 1, 2, 0, 7, 5, 6, 3], [2, 0, 0, 2, 2, 0, 0, 2])
  const MoveF2: MoveDef := MoveDef([7, 1, 2, 4, 3, 5, 6, 0], NoTwist)

  /** `CORNER_MOVES` as a lookup: the definition of a catalogued name, or None; its keys are `MOVE_NAMES`. */
  function CornerMove(name: string): (r: Option<MoveDef>)
    ensures r.Some? <==> name in MoveNames
  {
    if name == "U" then Some(MoveU)
    else if name == "U'" then Some(MoveU')
    else if name == "U2" then Some(MoveU2)
    else if name == "R" then Some(MoveR)
    else if name == "R'" then Some(MoveR')
    else if name == "R2" then Some(MoveR2)
    else if name == "F" then Some(MoveF)
    else if name == "F'" then Some(MoveF')
    else if name == "F2" then Some(MoveF2)
    else None
  }

  /** `name in self.moves`. */
  predicate Defined(name: string) {
    CornerMove(name).Some?
  }

  datatype MoveError = UnknownMove(name: string)

  /** A table entry the move function can run on: a permutation of 0..7 and eight twists in 0..2. */
  predicate ValidDef(d: MoveDef) {
    IsPermutation(d.perm, 8) && |d.orient| == 8 && forall i :: 0 <= i < 8 ==> 0 <= d.orient[i] < 3
  }

  /** What reading a table entry needs: eight slots, each naming a slot 0..7. */
  predicate Shaped(d: MoveDef) {
    |d.perm| == 8 && |d.orient| == 8 && forall i :: 0 <= i < 8 ==> 0 <= d.perm[i] < 8
  }

  /** At slot i, running `d` then `e` brings back the corner that was there, with its old twist. */
  predicate UndoesAt(d: MoveDef, e: MoveDef, i: int) {
    && 0 <= i < |e.perm| && i < |e.orient|
    && 0 <= e.perm[i] < |d.perm| && e.perm[i] < |d.orient|
    && d.perm[e.perm[i]] == i
    && (d.orient[e.perm[i]] + e.orient[i]) % 3 == 0
  }

  /** Table entry `e` undoes entry `d` at every slot. */
  predicate Undoes(d: MoveDef, e: MoveDef) {
    forall i :: 0 <= i < 8 ==> UndoesAt(d, e, i)
  }

  /** Eight slot facts give the whole `Undoes`. */
  lemma UndoesBySlots(d: MoveDef, e: MoveDef)
    requires UndoesAt(d, e, 0) && UndoesAt(d, e, 1) && UndoesAt(d, e, 2) && UndoesAt(d, e, 3)
    requires UndoesAt(d, e, 4) && UndoesAt(d, e, 5) && UndoesAt(d, e, 6) && UndoesAt(d, e, 7)
    ensures Undoes(d, e)
  {
    forall i | 0 <= i < 8 ensures UndoesAt(d, e, i) {
      assert i == 0 || i == 1 || i == 2 || i == 3 || i == 4 || i == 5 || i == 6 || i == 7;
    }
  }

  lemma UQuarterInverses()
    ensures Undoes(MoveU, MoveU') && Undoes(MoveU', MoveU)
  {
    UndoesBySlots(MoveU, MoveU');
    UndoesBySlots(MoveU', MoveU);
  }

  lemma RQuarterInverses()
    ensures Undoes(MoveR, MoveR') && Undoes(MoveR', MoveR)
  {
    UndoesBySlots(MoveR, MoveR');
    UndoesBySlots(MoveR', MoveR);
  }

  lemma FQuarterInverses()
    ensures Undoes(MoveF, MoveF') && Undoes(MoveF', MoveF)
  {
    UndoesBySlots(MoveF, MoveF');
    UndoesBySlots(MoveF', MoveF);
  }

  lemma HalfTurnsSelfInverse()
    ensures Undoes(MoveU2, MoveU2) && Undoes(MoveR2, MoveR2) && Undoes(MoveF2, MoveF2)
  {
    UndoesBySlots(MoveU2, MoveU2);
    UndoesBySlots(MoveR2, MoveR2);
    UndoesBySlots(MoveF2, MoveF2);
  }

  /** Twists of 0, 1 or 2 in every slot. */
  predicate TwistsInRange(t: seq<int>) {
    |t| == 8 && forall i :: 0 <= i < 8 ==> 0 <= t[i] < 3
  }

  lemma TableTwistsInRange()
    ensures TwistsInRange(NoTwist)
    ensures TwistsInRange(MoveR.orient) && TwistsInRange(MoveR'.orient)
    ensures TwistsInRange(MoveF.orient) && TwistsInRange(MoveF'.orient)
  {
  }

  /** An entry that some entry undoes is a permutation: the undoing entry maps it back. */
  lemma ValidByInverse(d: MoveDef, e: MoveDef)
    requires |d.perm| == 8 && |e.perm| == 8 && TwistsInRange(e.orient) && Undoes(d, e)
    ensures ValidDef(e)
  {
    forall i, j | 0 <= i < j < 8 ensures e.perm[i] != e.perm[j] {
      assert UndoesAt(d, e, i) && UndoesAt(d, e, j);
    }
    forall i | 0 <= i < 8 ensures 0 <= e.perm[i] < 8 {
      assert UndoesAt(d, e, i);
    }
  }

  /** Every entry of the table is a permutation of 0..7 with twists in 0..2. */
  lemma TableValid()
    ensures ValidDef(MoveU) && ValidDef(MoveU') && ValidDef(MoveU2)
    ensures ValidDef(MoveR) && ValidDef(MoveR') && ValidDef(MoveR2)
    ensures ValidDef(MoveF) && ValidDef(MoveF') && ValidDef(MoveF2)
  {
    TableTwistsInRange();
    UQuarterInverses();
    RQuarterInverses();
    FQuarterInverses();
    HalfTurnsSelfInverse();
    ValidByInverse(MoveU', MoveU);
    ValidByInverse(MoveU, MoveU');
    ValidByInverse(MoveU2, MoveU2);
    ValidByInverse(MoveR', MoveR);
    ValidByInverse(MoveR, MoveR');
    ValidByInverse(MoveR2, MoveR2);
    ValidByInverse(MoveF', MoveF);
    ValidByInverse(MoveF, MoveF');
    ValidByInverse(MoveF2, MoveF2);
  }

  /** The definition of a catalogued move. */
  function Def(name: string): (d: MoveDef)
    requires Defined(name)
    ensures ValidDef(d)
  {
    TableValid();
    CornerMove(name).value
  }

  /** The new corner positions: slot i takes the piece from slot perm[i]. */
  function TurnPositions(pos: seq<int>, d: MoveDef): (r: seq<int>)
    requires |pos| == 8 && Shaped(d)
    ensures |r| == 8 && forall i {:trigger r[i]} :: 0 <= i < 8 ==> r[i] == pos[d.perm[i]]
  {
    seq(8, i requires 0 <= i < 8 => pos[d.perm[i]])
  }

  /** The new corner twists: the moved piece's twist plus the slot's delta, mod 3. */
  function TurnOrientations(ori: seq<int>, d: MoveDef): (r: seq<int>)
    requires |ori| == 8 && Shaped(d)
    ensures |r| == 8 && forall i {:trigger r[i]} :: 0 <= i < 8 ==> r[i] == (ori[d.perm[i]] + d.orient[i]) % 3
  {
    seq(8, i requires 0 <= i < 8 => (ori[d.perm[i]] + d.orient[i]) % 3)
  }

  /**
   * `apply_move` on a value: an unknown name is an error; otherwise both corner arrays
   * are recomputed from the old ones and the edges are left as they are.
   */
  function Apply(c: Cube, name: string): (r: Result<Cube, MoveError>)
    requires c.WellFormed()
    ensures !Defined(name) <==> r == Failure(UnknownMove(name))
    ensures r.Success? ==> r.value.WellFormed()
    ensures r.Success? ==> r.value.edgePositions == c.edgePositions
    ensures r.Success? ==> r.value.edgeOrientations == c.edgeOrientations
  {
    if !Defined(name) then Failure(UnknownMove(name))
    else
      var d := Def(name);
      Success(c.(cornerPositions := TurnPositions(c.cornerPositions, d),
                 cornerOrientations := TurnOrientations(c.cornerOrientations, d)))
  }

  /**
   * The module-level `apply_move`: checks the name before writing anything, then
   * reassigns the cube's two corner arrays, both computed from the pre-move arrays.
   */
  method ApplyMove(cube: CubeState, name: string) returns (r: Outcome<MoveError>)
    requires cube.Value().WellFormed()
    modifies cube
    ensures r == Fail(UnknownMove(name)) <==> !Defined(name)
    ensures r.Fail? ==> cube.Value() == old(cube.Value())
    ensures r.Pass? ==> Apply(old(cube.Value()), name) == Success(cube.Value())
  {
    if !Defined(name) {
      return Fail(UnknownMove(name));
    }
    var d := Def(name);
    var pos, ori := cube.cornerPositions, cube.cornerOrientations;
    var newPositions := TurnPositions(pos, d);
    var newOrientations := TurnOrientations(ori, d);
    cube.cornerPositions := newPositions;
    cube.cornerOrientations := newOrientations;
    r := Pass;
  }

  /**
   * `get_inverse_move`: drop a trailing `'`, keep a trailing `2`, otherwise append `'`.
   * It turns the same face back, and only a name ending in `2` (a half turn) is its own inverse.
   */
  function InverseMove(name: string): (r: string)
    ensures |name| > 0 && name != "'" ==> |r| > 0 && r[0] == name[0]
    ensures r == name <==> |name| > 0 && name[|name| - 1] == '2'
  {
    if |name| > 0 && name[|name| - 1] == '\'' then name[..|name| - 1]
    else if |name| > 0 && name[|name| - 1] == '2' then name
    else name + "'"
  }

  // ---------------------------------------------------------------- properties

  /** `MOVE_NAMES` and the keys of `CORNER_MOVES` are the same nine distinct names. */
  lemma MoveNamesMatchTable()
    ensures |MoveNames| == 9
    ensures forall i, j :: 0 <= i < j < 9 ==> MoveNames[i] != MoveNames[j]
    ensures forall name :: Defined(name) <==> name in MoveNames
  {
  }

  /**
   * `get_inverse_move` undoes itself exactly when its first step cannot produce a name
   * that ends in `'` or `2`, that is, unless the name ends in `''` or `2'`.
   */
  lemma {:induction false} InverseInvolutive(name: string)
    ensures InverseMove(InverseMove(name)) == name <==>
      !(|name| >= 2 && name[|name| - 1] == '\'' && name[|name| - 2] in {'\'', '2'})
  {
    var n := |name|;
    if n > 0 && name[n - 1] == '\'' {
      var m := name[..n - 1];
      if |m| > 0 && (m[|m| - 1] == '\'' || m[|m| - 1] == '2') {
        assert |InverseMove(m)| < n;
      } else {
        assert InverseMove(m) == m + "'";
        assert m + "'" == name;
      }
    } else if n > 0 && name[n - 1] == '2' {
    } else {
      var m := name + "'";
      assert m[|m| - 1] == '\'';
      assert m[..|m| - 1] == name;
    }
  }

  /** On the nine names the inverse is again one of the nine, and applying it twice gives the name back. */
  lemma InverseOnMoveNames(name: string)
    requires name in MoveNames
    ensures InverseMove(name) in MoveNames
    ensures InverseMove(InverseMove(name)) == name
  {
    if name in ["U", "U'", "U2"] {
      InverseOfFace('U');
    } else if name in ["R", "R'", "R2"] {
      InverseOfFace('R');
    } else {
      InverseOfFace('F');
    }
  }

  /** The inverses of the three moves of one face. */
  lemma InverseOfFace(f: char)
    requires f != '\'' && f != '2'
    ensures InverseMove([f]) == [f, '\''] && InverseMove([f, '\'']) == [f] && InverseMove([f, '2']) == [f, '2']
  {
    assert [f, '\''][..1] == [f];
    assert [f] + "'" == [f, '\''];
  }

  /** A move keeps the state invariant: a permutation stays a permutation, twists stay in 0..2. */
  lemma ApplyKeepsValid(c: Cube, name: string)
    requires c.Valid() && Defined(name)
    ensures Apply(c, name).Success? && Apply(c, name).value.Valid()
  {
    var d := Def(name);
    var p := TurnPositions(c.cornerPositions, d);
    forall i, j | 0 <= i < j < 8 ensures p[i] != p[j] {
      assert d.perm[i] != d.perm[j];
    }
  }

  /** For each of the nine names, the entry of its inverse name undoes its entry. */
  lemma InverseEntryUndoes(name: string)
    requires name in MoveNames
    ensures InverseMove(name) in MoveNames && Defined(name) && Defined(InverseMove(name))
    ensures Undoes(Def(name), Def(InverseMove(name)))
  {
    InverseOnMoveNames(name);
    MoveNamesMatchTable();
    UQuarterInverses();
    RQuarterInverses();
    FQuarterInverses();
    HalfTurnsSelfInverse();
    if name == "U" {
      assert InverseMove(name) == "U'";
    } else if name == "U'" {
      assert InverseMove(name) == "U";
    } else if name == "R" {
      assert InverseMove(name) == "R'";
    } else if name == "R'" {
      assert InverseMove(name) == "R";
    } else if name == "F" {
      assert InverseMove(name) == "F'";
    } else if name == "F'" {
      assert InverseMove(name) == "F";
    } else {
      assert InverseMove(name) == name;
    }
  }

  /** Adding two twists that cancel modulo 3 leaves a twist in 0..2 as it was. */
  lemma TwistUndo(t: int, x: int, y: int)
    requires 0 <= t < 3 && 0 <= x && 0 <= y && (x + y) % 3 == 0
    ensures ((t + x) % 3 + y) % 3 == t
  {
  }

  /** Running an entry and then one that undoes it restores a state whose twists are in 0..2. */
  lemma TurnThenUndo(c: Cube, d: MoveDef, e: MoveDef)
    requires c.Valid() && ValidDef(d) && ValidDef(e) && Undoes(d, e)
    ensures var c1 := c.(cornerPositions := TurnPositions(c.cornerPositions, d),
                         cornerOrientations := TurnOrientations(c.cornerOrientations, d));
            c1.(cornerPositions := TurnPositions(c1.cornerPositions, e),
                cornerOrientations := TurnOrientations(c1.cornerOrientations, e)) == c
  {
    var p1, o1 := TurnPositions(c.cornerPositions, d), TurnOrientations(c.cornerOrientations, d);
    var p2, o2 := TurnPositions(p1, e), TurnOrientations(o1, e);
    forall i | 0 <= i < 8
      ensures p2[i] == c.cornerPositions[i] && o2[i] == c.cornerOrientations[i]
    {
      assert UndoesAt(d, e, i);
      var j := e.perm[i];
      assert o2[i] == ((c.cornerOrientations[i] + d.orient[j]) % 3 + e.orient[i]) % 3;
      TwistUndo(c.cornerOrientations[i], d.orient[j], e.orient[i]);
    }
    assert p2 == c.cornerPositions;
    assert o2 == c.cornerOrientations;
  }

  /** Applying a move and then its inverse restores the state, for every valid state and all nine moves. */
  lemma ApplyThenInverse(c: Cube, name: string)
    requires c.Valid() && name in MoveNames
    ensures Apply(c, name).Success?
    ensures Apply(Apply(c, name).value, InverseMove(name)) == Success(c)
  {
    InverseEntryUndoes(name);
    TurnThenUndo(c, Def(name), Def(InverseMove(name)));
  }

  /** Every half turn applied twice restores the state. */
  lemma HalfTurnTwice(c: Cube, name: string)
    requires c.Valid() && name in ["U2", "R2", "F2"]
    ensures Apply(c, name).Success?
    ensures Apply(Apply(c, name).value, name) == Success(c)
  {
    assert InverseMove(name) == name;
    ApplyThenInverse(c, name);
  }

  /** At slot i, running `d` twice moves the same corner as `h` (and, if `twists`, with the same twist). */
  predicate TwiceAt(d: MoveDef, h: MoveDef, i: int, twists: bool) {
    && 0 <= i < |d.perm| && i < |d.orient| && i < |h.perm| && i < |h.orient|
    && 0 <= d.perm[i] < |d.perm| && d.perm[i] < |d.orient|
    && d.perm[d.perm[i]] == h.perm[i]
    && (twists ==> (d.orient[d.perm[i]] + d.orient[i]) % 3 == h.orient[i])
  }

  lemma TwiceBySlots(d: MoveDef, h: MoveDef, twists: bool)
    requires TwiceAt(d, h, 0, twists) && TwiceAt(d, h, 1, twists) && TwiceAt(d, h, 2, twists)
    requires TwiceAt(d, h, 3, twists) && TwiceAt(d, h, 4, twists) && TwiceAt(d, h, 5, twists)
    requires TwiceAt(d, h, 6, twists) && TwiceAt(d, h, 7, twists)
    ensures forall i :: 0 <= i < 8 ==> TwiceAt(d, h, i, twists)
  {
    forall i | 0 <= i < 8 ensures TwiceAt(d, h, i, twists) {
      assert i == 0 || i == 1 || i == 2 || i == 3 || i == 4 || i == 5 || i == 6 || i == 7;
    }
  }

  /** At one slot, twisting by `d` twice is twisting by `h` once. */
  lemma TwiceTwistAt(o: seq<int>, d: MoveDef, h: MoveDef, i: int)
    requires |o| == 8 && |d.perm| == 8 && |h.perm| == 8 && (forall k :: 0 <= k < 8 ==> 0 <= d.perm[k] < 8)
    requires TwiceAt(d, h, i, true)
    ensures ((o[d.perm[d.perm[i]]] + d.orient[d.perm[i]]) % 3 + d.orient[i]) % 3 == (o[h.perm[i]] + h.orient[i]) % 3
  {
  }

  lemma UTwiceIsU2()
    ensures forall i :: 0 <= i < 8 ==> TwiceAt(MoveU, MoveU2, i, true)
  {
    TwiceBySlots(MoveU, MoveU2, true);
  }

  lemma RTwiceMovesAsR2()
    ensures forall i :: 0 <= i < 8 ==> TwiceAt(MoveR, MoveR2, i, false)
  {
    TwiceBySlots(MoveR, MoveR2, false);
  }

  lemma FTwiceMovesAsF2()
    ensures forall i :: 0 <= i < 8 ==> TwiceAt(MoveF, MoveF2, i, false)
  {
    TwiceBySlots(MoveF, MoveF2, false);
  }

  /** Running `d` twice moves the corners as running `h` once. */
  lemma TurnTwicePositions(p: seq<int>, d: MoveDef, h: MoveDef)
    requires |p| == 8 && Shaped(d) && Shaped(h)
    requires forall i :: 0 <= i < 8 ==> TwiceAt(d, h, i, false)
    ensures TurnPositions(TurnPositions(p, d), d) == TurnPositions(p, h)
  {
    var p1 := TurnPositions(p, d);
    var p2, ph := TurnPositions(p1, d), TurnPositions(p, h);
    forall i | 0 <= i < 8 ensures p2[i] == ph[i] {
      assert TwiceAt(d, h, i, false);
      assert p2[i] == p1[d.perm[i]] == p[d.perm[d.perm[i]]];
    }
    assert p2 == ph;
  }

  /** Running `d` twice twists the corners as running `h` once, when the slot twists agree. */
  lemma TurnTwiceTwists(o: seq<int>, d: MoveDef, h: MoveDef)
    requires |o| == 8 && Shaped(d) && Shaped(h)
    requires forall i :: 0 <= i < 8 ==> TwiceAt(d, h, i, true)
    ensures TurnOrientations(TurnOrientations(o, d), d) == TurnOrientations(o, h)
  {
    var o1 := TurnOrientations(o, d);
    var o2, oh := TurnOrientations(o1, d), TurnOrientations(o, h);
    forall i | 0 <= i < 8 ensures o2[i] == oh[i] {
      TwiceTwistAt(o, d, h, i);
    }
    assert o2 == oh;
  }

  /** `U` applied twice is `U2`. */
  lemma QuarterTurnUTwice(c: Cube)
    requires c.WellFormed()
    ensures Apply(c, "U").Success?
    ensures Apply(Apply(c, "U").value, "U") == Apply(c, "U2")
  {
    TableValid();
    UTwiceIsU2();
    TurnTwicePositions(c.cornerPositions, MoveU, MoveU2);
    TurnTwiceTwists(c.cornerOrientations, MoveU, MoveU2);
  }

  /** `R` twice and `F` twice move the corners like `R2` and `F2` (their twists differ). */
  lemma QuarterTurnTwicePositions(c: Cube, face: string, half: string)
    requires c.WellFormed() && (face, half) in [("R", "R2"), ("F", "F2")]
    ensures Apply(c, face).Success? && Apply(c, half).Success?
    ensures Apply(Apply(c, face).value, face).value.cornerPositions == Apply(c, half).value.cornerPositions
  {
    if face == "R" {
      assert Def(face) == MoveR && Def(half) == MoveR2;
      RTwiceMovesAsR2();
      TurnTwicePositions(c.cornerPositions, MoveR, MoveR2);
    } else {
      assert Def(face) == MoveF && Def(half) == MoveF2;
      FTwiceMovesAsF2();
      TurnTwicePositions(c.cornerPositions, MoveF, MoveF2);
    }
  }

  /**
   * The twist table does not give quarter turns order four: one `R` from the goal twists
   * corners 0, 1, 4 and 5 by 1 (the twist sum goes from 0 to 4), and after four `R`s
   * corner 0 is twisted by 1, so the state is not the goal.
   */
  lemma QuarterTurnRFourTimesTwists()
    ensures Apply(Goal, "R").Success?
    ensures var o := Apply(Goal, "R").value.cornerOrientations;
            o[0] + o[1] + o[2] + o[3] + o[4] + o[5] + o[6] + o[7] == 4
    ensures var r1 := Apply(Goal, "R").value;
            var r2 := Apply(r1, "R").value;
            var r3 := Apply(r2, "R").value;
            var r4 := Apply(r3, "R").value;
            r4.cornerOrientations[0] == 1 && r4 != Goal
  {
    TableValid();
    assert Def("R") == MoveR;
    var o0 := Goal.cornerOrientations;
    var o1 := TurnOrientations(o0, MoveR);
    assert o1[0] == 1 && o1[1] == 1 && o1[4] == 1 && o1[5] == 1;
    assert o1[2] == 0 && o1[3] == 0 && o1[6] == 0 && o1[7] == 0;
    var o2 := TurnOrientations(o1, MoveR);
    assert o2[5] == 2;
    var o3 := TurnOrientations(o2, MoveR);
    assert o3[4] == 0;
    var o4 := TurnOrientations(o3, MoveR);
    assert o4[0] == 1;
  }

  // ---------------------------------------------------------------- move sequences

  /** Every move of `ms` is in the move set `moves`. */
  predicate AllIn(ms: seq<string>, moves: seq<string>) {
    forall i :: 0 <= i < |ms| ==> ms[i] in moves
  }

  /** Every name of `ms` is one of the nine. */
  predicate AllMoves(ms: seq<string>) {
    AllIn(ms, MoveNames)
  }

  /** A slice of a sequence of the nine moves is one too. */
  lemma AllMovesSlice(ms: seq<string>, lo: int, hi: int)
    requires AllMoves(ms) && 0 <= lo <= hi <= |ms|
    ensures AllMoves(ms[lo..hi])
  {
    forall k | 0 <= k < hi - lo ensures ms[lo..hi][k] in MoveNames {
      assert ms[lo..hi][k] == ms[lo + k];
    }
  }

  /** The state reached by applying the moves of `ms` in order, as `apply_move` would one by one. */
  function Play(c: Cube, ms: seq<string>): (r: Cube)
    requires c.WellFormed() && AllMoves(ms)
    ensures r.WellFormed()
    ensures r.edgePositions == c.edgePositions && r.edgeOrientations == c.edgeOrientations
    decreases |ms|
  {
    if ms == [] then c
    else
      MoveNamesMatchTable();
      Play(Apply(c, ms[0]).value, ms[1..])
  }

  /** One more move at the end of a sequence is applied to the state the sequence reached. */
  lemma {:induction false} PlaySnoc(c: Cube, ms: seq<string>, m: string)
    requires c.WellFormed() && AllMoves(ms) && m in MoveNames
    ensures AllMoves(ms + [m])
    ensures Apply(Play(c, ms), m).Success? && Play(c, ms + [m]) == Apply(Play(c, ms), m).value
    decreases |ms|
  {
    MoveNamesMatchTable();
    if ms != [] {
      var c1 := Apply(c, ms[0]).value;
      assert (ms + [m])[1..] == ms[1..] + [m];
      PlaySnoc(c1, ms[1..], m);
    }
  }

  /** Playing `a + b` is playing `a` and then `b` from where `a` ends. */
  lemma {:induction false} PlayAppend(c: Cube, a: seq<string>, b: seq<string>)
    requires c.WellFormed() && AllMoves(a) && AllMoves(b)
    ensures AllMoves(a + b) && Play(c, a + b) == Play(Play(c, a), b)
    decreases |a|
  {
    if a != [] {
      MoveNamesMatchTable();
      var rest := a[1..];
      assert AllMoves(rest) by {
        forall i | 0 <= i < |rest| ensures rest[i] in MoveNames {
          assert rest[i] == a[i + 1];
        }
      }
      assert (a + b)[0] == a[0] && (a + b)[1..] == rest + b;
      PlayAppend(Apply(c, a[0]).value, rest, b);
    } else {
      assert a + b == b;
    }
  }

  /** Moves keep a valid state valid, however many are played. */
  lemma {:induction false} PlayKeepsValid(c: Cube, ms: seq<string>)
    requires c.Valid() && AllMoves(ms)
    ensures Play(c, ms).Valid()
    decreases |ms|
  {
    if ms != [] {
      MoveNamesMatchTable();
      ApplyKeepsValid(c, ms[0]);
      PlayKeepsValid(Apply(c, ms[0]).value, ms[1..]);
    }
  }

  /** The inverse of a move sequence: the inverses of its moves, last move first. */
  function InverseSequence(ms: seq<string>): (r: seq<string>)
    ensures |r| == |ms|
    ensures forall i :: 0 <= i < |ms| ==> r[i] == InverseMove(ms[|ms| - 1 - i])
    decreases |ms|
  {
    if ms == [] then [] else InverseSequence(ms[1..]) + [InverseMove(ms[0])]
  }

  /** The inverse of a sequence of the nine moves is again made of the nine moves. */
  lemma InverseSequenceMoves(ms: seq<string>)
    requires AllMoves(ms)
    ensures AllMoves(InverseSequence(ms))
  {
    var r := InverseSequence(ms);
    forall i | 0 <= i < |r| ensures r[i] in MoveNames {
      InverseOnMoveNames(ms[|ms| - 1 - i]);
    }
  }

  /** Playing a sequence of moves and then its inverse sequence restores every valid state. */
  lemma {:induction false} PlayThenInverse(c: Cube, ms: seq<string>)
    requires c.Valid() && AllMoves(ms)
    ensures AllMoves(InverseSequence(ms))
    ensures Play(Play(c, ms), InverseSequence(ms)) == c
    decreases |ms|
  {
    InverseSequenceMoves(ms);
    if ms != [] {
      MoveNamesMatchTable();
      var m := ms[0];
      var c1 := Apply(c, m).value;
      ApplyKeepsValid(c, m);
      PlayThenInverse(c1, ms[1..]);
      InverseOnMoveNames(m);
      InverseSequenceMoves(ms[1..]);
      PlaySnoc(Play(c1, ms[1..]), InverseSequence(ms[1..]), InverseMove(m));
      ApplyThenInverse(c, m);
    }
  }
}
