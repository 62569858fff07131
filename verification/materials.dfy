/**
 * `Batom.assign_materials`: the instancer mesh receives one material per
 * element in descending-occupancy order, and when a species has several
 * elements each element after the first paints the faces whose normal angle
 * (a fraction of a full turn) falls in its wedge of cumulative occupancy.
 * The face angles are an input; their computation from the face normals is
 * not part of this model.
 */
module Materials {
  import opened Occupancy

  /** The mesh's material slots and the material index of every face. */
  datatype Assignment = Assignment(slots: seq<Element>, faces: seq<int>)

  /**
   * The running sum `tos` of the sweep after element i: the occupancies of
   * entries 1..i of the sorted table. The head entry contributes nothing.
   */
  function Boundary(sorted: Composition, i: nat): real
    requires i < |sorted|
  {
    if i == 0 then 0.0 else Boundary(sorted, i - 1) + sorted[i].1
  }

  /** Angle a lies strictly inside the wedge of sorted entry i (i >= 1). */
  predicate InWedge(sorted: Composition, i: int, a: real) {
    1 <= i < |sorted| && Boundary(sorted, i - 1) < a < Boundary(sorted, i)
  }

  /**
   * The entry that paints a face of angle a once the sweep has handled
   * entries 1..i-1: the last of them whose wedge holds a, or 0 when none does.
   */
  function LastClaimant(sorted: Composition, a: real, i: nat): (k: nat)
    requires i <= |sorted|
    ensures k == 0 || (1 <= k < i && InWedge(sorted, k, a))
    ensures forall j :: k < j < i ==> !InWedge(sorted, j, a)
    ensures k == 0 <==> forall j :: 1 <= j < i ==> !InWedge(sorted, j, a)
  {
    if i <= 1 then 0
    else if InWedge(sorted, i - 1, a) then i - 1
    else LastClaimant(sorted, a, i - 1)
  }

  /** `material_indexs[np.where((angles > lo) & (angles < hi))[0]] = i`. */
  function Paint(faces: seq<int>, angles: seq<real>, lo: real, hi: real, i: int): (r: seq<int>)
    requires |angles| == |faces|
    ensures |r| == |faces|
  {
    seq(|faces|, f requires 0 <= f < |faces| => if lo < angles[f] < hi then i else faces[f])
  }

  /** The face indices after the loop body has run for entries 1..i-1. */
  function Sweep(sorted: Composition, angles: seq<real>, faces: seq<int>, i: nat): (r: seq<int>)
    requires 1 <= i <= |sorted| && |angles| == |faces|
    ensures |r| == |faces|
    ensures forall f :: 0 <= f < |faces| ==>
      r[f] == if LastClaimant(sorted, angles[f], i) == 0 then faces[f] else LastClaimant(sorted, angles[f], i)
  {
    if i == 1 then faces
    else
      Paint(Sweep(sorted, angles, faces, i - 1), angles, Boundary(sorted, i - 2), Boundary(sorted, i - 1), i - 1)
  }

  /**
   * The full operation. Slots follow the stable descending-occupancy order;
   * with at most one element no face is touched; otherwise every face takes
   * the index of the last sorted entry whose wedge holds its angle and keeps
   * its previous index when there is none.
   */
  function AssignMaterials(elements: Composition, angles: seq<real>, faces: seq<int>): (r: Assignment)
    requires |angles| == |faces|
    ensures |r.slots| == |elements| && |r.faces| == |faces|
    ensures |elements| <= 1 ==> r.faces == faces
    ensures forall f :: 0 <= f < |faces| ==>
      var k := LastClaimant(SortByOccupancy(elements), angles[f], |elements|);
      r.faces[f] == if k == 0 then faces[f] else k
  {
    var sorted := SortByOccupancy(elements);
    var slots := Keys(sorted);
    if |sorted| > 1 then Assignment(slots, Sweep(sorted, angles, faces, |sorted|))
    else Assignment(slots, faces)
  }

  /** With one key per element, the occupancy looked up by key is the entry's own. */
  lemma {:induction false} OccupancyOfMember(c: Composition, e: Entry)
    requires DistinctKeys(c) && e in c
    ensures OccupancyOf(c, e.0) == e.1
  {
    if c[0] != e {
      assert e in c[1..];
      var m :| 0 <= m < |c[1..]| && c[1..][m] == e;
      assert c[m + 1] == e;
      OccupancyOfMember(c[1..], e);
    }
  }

  /**
   * Materials are appended in descending-occupancy order: the slots are the
   * element names, each once, each at least as occupied as every later one.
   */
  lemma SlotsInOccupancyOrder(elements: Composition, angles: seq<real>, faces: seq<int>)
    requires |angles| == |faces| && DistinctKeys(elements)
    ensures multiset(AssignMaterials(elements, angles, faces).slots) == multiset(Keys(elements))
    ensures var slots := AssignMaterials(elements, angles, faces).slots;
      forall i, j :: 0 <= i < j < |slots| ==> OccupancyOf(elements, slots[i]) >= OccupancyOf(elements, slots[j])
  {
    var sorted := SortByOccupancy(elements);
    SortPermutes(elements);
    SortPermutesKeys(elements);
    var slots := Keys(sorted);
    forall i, j | 0 <= i < j < |slots|
      ensures OccupancyOf(elements, slots[i]) >= OccupancyOf(elements, slots[j])
    {
      assert sorted[i] in multiset(elements) && sorted[j] in multiset(elements);
      OccupancyOfMember(elements, sorted[i]);
      OccupancyOfMember(elements, sorted[j]);
    }
  }

  /** With non-negative occupancies the running sum never decreases. */
  lemma {:induction false} BoundaryMonotone(sorted: Composition, i: nat, j: nat)
    requires i <= j < |sorted|
    requires forall k :: 0 <= k < |sorted| ==> sorted[k].1 >= 0.0
    ensures Boundary(sorted, i) <= Boundary(sorted, j)
    decreases j
  {
    if i < j {
      BoundaryMonotone(sorted, i, j - 1);
    }
  }

  /** With non-negative occupancies the wedges do not overlap. */
  lemma WedgesDisjoint(sorted: Composition, a: real, i: int, j: int)
    requires forall k :: 0 <= k < |sorted| ==> sorted[k].1 >= 0.0
    requires InWedge(sorted, i, a) && InWedge(sorted, j, a)
    ensures i == j
  {
    if i < j {
      BoundaryMonotone(sorted, i, j - 1);
    } else if j < i {
      BoundaryMonotone(sorted, j, i - 1);
    }
  }

  /**
   * For non-negative occupancies, sorted entry i >= 1 receives exactly the
   * faces whose angle lies in the open interval between the sums of the
   * occupancies of entries 1..i-1 and 1..i; all other faces keep their index.
   */
  lemma AssignMaterialsPartition(elements: Composition, angles: seq<real>, faces: seq<int>, f: int, i: int)
    requires |angles| == |faces| && 0 <= f < |faces|
    requires forall e :: e in elements ==> e.1 >= 0.0
    ensures var sorted := SortByOccupancy(elements);
      InWedge(sorted, i, angles[f]) ==> AssignMaterials(elements, angles, faces).faces[f] == i
    ensures var sorted := SortByOccupancy(elements);
      (forall k :: !InWedge(sorted, k, angles[f])) ==> AssignMaterials(elements, angles, faces).faces[f] == faces[f]
  {
    var sorted := SortByOccupancy(elements);
    SortPermutes(elements);
    forall k | 0 <= k < |sorted|
      ensures sorted[k].1 >= 0.0
    {
      assert sorted[k] in multiset(elements);
    }
    var c := LastClaimant(sorted, angles[f], |sorted|);
    if InWedge(sorted, i, angles[f]) && c != 0 {
      WedgesDisjoint(sorted, angles[f], i, c);
    }
  }

  /** Re-running the assignment on its own output changes nothing. */
  lemma AssignMaterialsIdempotent(elements: Composition, angles: seq<real>, faces: seq<int>)
    requires |angles| == |faces|
    ensures var r := AssignMaterials(elements, angles, faces);
      AssignMaterials(elements, angles, r.faces) == r
  {
    var r := AssignMaterials(elements, angles, faces);
    var r2 := AssignMaterials(elements, angles, r.faces);
    assert r2.faces == r.faces;
  }
}
