/**
 * One species of atoms (`Batom`): its element table, the positions of its
 * atoms (the mesh vertices) and the coordinates of its shape keys, the
 * first of which is the basis key. The placement transform is taken to be
 * the identity, so global and local positions coincide.
 */
module BatomModel {
  import opened Wrappers
  import opened Geometry
  import opened Labels
  import opened Occupancy
  import opened Lattice
  import opened Frames
  import opened Indices

  datatype Batom = Batom(species: string, elements: Composition, positions: Positions, keys: seq<Positions>)

  /** Every shape key holds one coordinate per vertex. */
  predicate Consistent(b: Batom) {
    forall i :: 0 <= i < |b.keys| ==> |b.keys[i]| == |b.positions|
  }

  /** `if not elements`: no argument, the empty string and the empty dict all count as absent. */
  predicate Given(elements: Option<ElementsArg>) {
    match elements
    case None => false
    case Some(Symbol(s)) => |s| > 0
    case Some(Table(c)) => |c| > 0
  }

  /**
   * `Batom(species, positions, elements=...)`: the positions are shaped into
   * frames, the elements default to the species prefix before `'_'` and are
   * normalised, and `set_frames(..., only_basis=True)` adds the basis key.
   */
  function Create(species: string, positions: PositionArray, elements: Option<ElementsArg>): (r: Result<Batom>)
    requires |species| > 0
    ensures BatomTrajectory(positions).Err? ==> r == Err(BatomTrajectory(positions).error)
    ensures r.Ok? ==> r.value.species == species && r.value.keys == [r.value.positions] && Consistent(r.value)
    ensures r.Ok? && positions.Rows? ==> r.value.positions == positions.rows
    ensures r.Ok? && positions.Stack? ==> |positions.stack| > 0 && r.value.positions == positions.stack[0]
    ensures BatomTrajectory(positions).Ok? && !Given(elements) ==>
      r.Ok? && r.value.elements == [(ElementOf(species), 1.0)]
    ensures BatomTrajectory(positions).Ok? && Given(elements) ==>
      (r.Ok? <==> CheckElements(elements.value).Ok?)
    ensures r.Ok? && Given(elements) ==> r.value.elements == CheckElements(elements.value).value
  {
    var traj :- BatomTrajectory(positions);
    var arg := if Given(elements) then elements.value else Symbol(ElementOf(species));
    var comp :- CheckElements(arg);
    var basis := SetFrames(traj.frames, 0, true, |traj.positions|);
    assert basis == Ok(Schedule(true, []));
    Ok(Batom(species, comp, traj.positions, [traj.positions]))
  }

  /** `set_positions`: one new position per atom, or ValueError. */
  function SetPositions(b: Batom, ps: Positions): (r: Result<Batom>)
    ensures r.Err? <==> |ps| != |b.positions|
    ensures r.Err? ==> r.error == LengthMismatch
    ensures r.Ok? ==> r.value.positions == ps && r.value.keys == b.keys
    ensures r.Ok? ==> r.value.species == b.species && r.value.elements == b.elements
  {
    if |ps| != |b.positions| then Err(LengthMismatch) else Ok(b.(positions := ps))
  }

  /** Writing the current positions back changes nothing; a second write wins over the first. */
  lemma SetPositionsLaws(b: Batom, ps: Positions, qs: Positions)
    requires |ps| == |qs| == |b.positions|
    ensures SetPositions(b, b.positions) == Ok(b)
    ensures SetPositions(SetPositions(b, ps).value, qs) == SetPositions(b, qs)
  {
  }

  /** What is left after a deletion: the object is removed once no atom remains. */
  datatype Deletion = Emptied | Remaining(batom: Batom)

  /**
   * `delete(index)`: flags become the indices of their true entries, the
   * addressed vertices are removed from the mesh and from every shape key,
   * and the object disappears when none is left.
   */
  function Delete(b: Batom, arg: DeleteArg): (r: Result<Deletion>)
    ensures DeleteIndices(arg).Err? ==> r == Err(EmptyIndex)
    ensures DeleteIndices(arg).Ok? ==>
      (r.Err? <==> !AllInRange(DeleteIndices(arg).value, |b.positions|))
    ensures r.Ok? ==> var keep := Survivors(|b.positions|, DeleteIndices(arg).value).value;
      && (r.value.Emptied? <==> |keep| == 0)
      && (r.value.Remaining? ==> r.value.batom.positions == Select(b.positions, keep))
    ensures r.Ok? && r.value.Remaining? ==>
      && r.value.batom.species == b.species && r.value.batom.elements == b.elements
      && |r.value.batom.keys| == |b.keys|
      && (Consistent(b) ==> Consistent(r.value.batom))
      && r.value.batom.(positions := b.positions, keys := b.keys) == b
    ensures r.Ok? && r.value.Remaining? && Consistent(b) ==>
      var keep := Survivors(|b.positions|, DeleteIndices(arg).value).value;
      forall i :: 0 <= i < |b.keys| ==> r.value.batom.keys[i] == Select(b.keys[i], keep)
  {
    var ks :- DeleteIndices(arg);
    var n := |b.positions|;
    var keep :- Survivors(n, ks);
    if |keep| == 0 then Ok(Emptied)
    else
      var keys := seq(|b.keys|, i requires 0 <= i < |b.keys| => KeepRows(b.keys[i], n, keep));
      Ok(Remaining(b.(positions := Select(b.positions, keep), keys := keys)))
  }

  /**
   * The positions and shape keys after a repeat by counts t: the positions
   * are tiled and shifted block by block and the rows after the first n are
   * appended as new vertices; with more than one shape key every key is
   * repeated the same way and rescheduled by `set_frames`. New vertices
   * take their own coordinates in the basis key.
   */
  function RepeatTrajectory(positions: Positions, keys: seq<Positions>, t: Triple, cell: Cell): (r: Result<Trajectory>)
    ensures r.Ok? ==> |positions| <= |r.value.positions| && r.value.positions[..|positions|] == positions
    ensures r.Ok? ==> |r.value.frames| == |keys|
    ensures |keys| <= 1 ==> r.Ok?
  {
    var n := |positions|;
    var tiled := RepeatPositions(positions, t, cell);
    var added := if n <= |tiled| then tiled[n..] else [];
    var grown := positions + added;
    assert grown[..n] == positions;
    if |keys| > 1 then
      var framesNew := seq(|keys|, i requires 0 <= i < |keys| => RepeatPositions(keys[i], t, cell));
      var schedule :- SetFrames(framesNew, 0, false, |grown|);
      Ok(Trajectory(grown, [keys[0] + added] + seq(|schedule.keys|, j requires 0 <= j < |schedule.keys| => schedule.keys[j].coords)))
    else
      Ok(Trajectory(grown, if |keys| == 1 then [keys[0] + added] else []))
  }

  /**
   * With every count at least 1 and one coordinate per vertex in every key,
   * the repeat succeeds, the atoms are exactly the lattice repeat of the old
   * ones (block (m0, m1, m2) shifted by m0·a + m1·b + m2·c, block 0
   * unchanged), every shape key after the basis is repeated the same way,
   * and the basis key gains the new atoms' positions.
   */
  lemma RepeatLayout(positions: Positions, keys: seq<Positions>, t: Triple, cell: Cell)
    requires forall i :: 0 <= i < |keys| ==> |keys[i]| == |positions|
    requires t.x >= 1 && t.y >= 1 && t.z >= 1
    ensures RepeatTrajectory(positions, keys, t, cell).Ok?
    ensures RepeatTrajectory(positions, keys, t, cell).value.positions == RepeatPositions(positions, t, cell)
    ensures |keys| >= 1 ==>
      RepeatTrajectory(positions, keys, t, cell).value.frames[0] == keys[0] + RepeatPositions(positions, t, cell)[|positions|..]
    ensures forall i :: 1 <= i < |keys| ==>
      RepeatTrajectory(positions, keys, t, cell).value.frames[i] == RepeatPositions(keys[i], t, cell)
  {
    var n := |positions|;
    var tiled := RepeatPositions(positions, t, cell);
    RepeatKeepsFirstBlock(positions, t, cell);
    assert positions + tiled[n..] == tiled;
    if |keys| > 1 {
      var framesNew := seq(|keys|, i requires 0 <= i < |keys| => RepeatPositions(keys[i], t, cell));
      assert forall i :: 0 <= i < |framesNew| ==> |framesNew[i]| == |tiled|;
      assert SetFrames(framesNew, 0, false, |tiled|).Ok?;
    }
  }

  /** `repeat(m, cell)` on a species. */
  function Repeat(b: Batom, m: Multiplicity, cell: Cell): (r: Result<Batom>)
    ensures CheckRepeat(m, cell).Err? ==> r == Err(UndefinedLattice)
    ensures r.Ok? ==> CheckRepeat(m, cell).Ok?
    ensures r.Ok? ==> r.value.species == b.species && r.value.elements == b.elements
    ensures r.Ok? ==> |b.positions| <= |r.value.positions| && r.value.positions[..|b.positions|] == b.positions
    ensures r.Ok? ==> |r.value.keys| == |b.keys|
    ensures CheckRepeat(m, cell).Ok? && Consistent(b) && Counts(m).x >= 1 && Counts(m).y >= 1 && Counts(m).z >= 1 ==>
      && r.Ok?
      && r.value.positions == RepeatPositions(b.positions, Counts(m), cell)
      && (forall i :: 1 <= i < |b.keys| ==> r.value.keys[i] == RepeatPositions(b.keys[i], Counts(m), cell))
      && Consistent(r.value)
    ensures (CheckRepeat(m, cell).Ok? && Consistent(b) && Counts(m).x >= 1 && Counts(m).y >= 1 && Counts(m).z >= 1
             && |b.keys| >= 1) ==>
      r.Ok? && r.value.keys[0] == b.keys[0] + RepeatPositions(b.positions, Counts(m), cell)[|b.positions|..]
  {
    var t :- CheckRepeat(m, cell);
    assert Consistent(b) && t.x >= 1 && t.y >= 1 && t.z >= 1 ==>
      && RepeatTrajectory(b.positions, b.keys, t, cell).Ok?
      && RepeatTrajectory(b.positions, b.keys, t, cell).value.positions == RepeatPositions(b.positions, t, cell)
      && (|b.keys| >= 1 ==>
            RepeatTrajectory(b.positions, b.keys, t, cell).value.frames[0] ==
            b.keys[0] + RepeatPositions(b.positions, t, cell)[|b.positions|..])
      && forall i :: 1 <= i < |b.keys| ==>
        RepeatTrajectory(b.positions, b.keys, t, cell).value.frames[i] == RepeatPositions(b.keys[i], t, cell)
    by {
      if Consistent(b) && t.x >= 1 && t.y >= 1 && t.z >= 1 {
        RepeatLayout(b.positions, b.keys, t, cell);
      }
    }
    var traj :- RepeatTrajectory(b.positions, b.keys, t, cell);
    Ok(b.(positions := traj.positions, keys := traj.frames))
  }
}
