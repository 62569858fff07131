/**
 * Volumetric data (`build_volume` / `get_volume`): the values of a volume
 * are stored, flattened and padded with zeros to a multiple of three, as
 * the vertices of a hidden point cloud that also records the volume's
 * shape; reading them back drops the padding and restores the shape.
 */
module Volume {
  import opened Wrappers
  import opened Geometry

  /** A volume: its values in C order and the shape of the array. */
  datatype Grid = Grid(values: seq<real>, shape: seq<nat>)

  /** `np.product(shape)`: the number of values an array of that shape holds. */
  function Size(shape: seq<nat>): nat {
    if |shape| == 0 then 1 else shape[0] * Size(shape[1..])
  }

  /** The values fill the shape exactly, as for any numpy array. */
  predicate WellShaped(g: Grid) {
    |g.values| == Size(g.shape)
  }

  /** The hidden point cloud: one vertex per three stored values, and the shape. */
  datatype VolumeObject = VolumeObject(verts: seq<Vec3>, shape: seq<nat>)

  /** `dn = 3 - npoint % 3`: always at least one zero, never more than three. */
  function Padding(n: nat): (d: nat)
    ensures 1 <= d <= 3 && (n + d) % 3 == 0
  {
    3 - n % 3
  }

  function Zeros(d: nat): (z: seq<real>)
    ensures |z| == d && forall i :: 0 <= i < d ==> z[i] == 0.0
  {
    seq(d, i => 0.0)
  }

  /** `reshape(-1, 3)`: consecutive values grouped into vertices. */
  function Triples(s: seq<real>): (r: seq<Vec3>)
    requires |s| % 3 == 0
    ensures 3 * |r| == |s|
  {
    if |s| == 0 then [] else [Vec3(s[0], s[1], s[2])] + Triples(s[3..])
  }

  /** `foreach_get('co', ...)`: the vertex coordinates one after another. */
  function Flatten(vs: seq<Vec3>): (r: seq<real>)
    ensures |r| == 3 * |vs|
  {
    if |vs| == 0 then [] else [vs[0].x, vs[0].y, vs[0].z] + Flatten(vs[1..])
  }

  /** Grouping into vertices loses nothing. */
  lemma {:induction false} FlattenTriples(s: seq<real>)
    requires |s| % 3 == 0
    ensures Flatten(Triples(s)) == s
  {
    if |s| > 0 {
      var r := Triples(s);
      assert r[1..] == Triples(s[3..]);
      FlattenTriples(s[3..]);
      assert s == [s[0], s[1], s[2]] + s[3..];
    }
  }

  /** The vertices built from a volume's values: the values, then the padding zeros. */
  function Pack(values: seq<real>): (r: seq<Vec3>)
    ensures Flatten(r) == values + Zeros(Padding(|values|))
    ensures 3 * |r| == |values| + Padding(|values|)
  {
    var padded := values + Zeros(Padding(|values|));
    FlattenTriples(padded);
    Triples(padded)
  }

  /** `build_volume(volume)`: `None` leaves any stored volume alone; a volume replaces it. */
  function BuildVolume(volume: Option<Grid>, current: Option<VolumeObject>): (r: Option<VolumeObject>)
    ensures volume.None? ==> r == current
    ensures volume.Some? ==> r.Some? && r.value.shape == volume.value.shape
    ensures volume.Some? ==>
      Flatten(r.value.verts) == volume.value.values + Zeros(Padding(|volume.value.values|))
  {
    match volume
    case None => current
    case Some(g) => Some(VolumeObject(Pack(g.values), g.shape))
  }

  /**
   * `get_volume()`: no stored volume gives `None`; otherwise the first
   * `prod(shape)` coordinates are reshaped, which fails when there are fewer.
   */
  function GetVolume(obj: Option<VolumeObject>): (r: Result<Option<Grid>>)
    ensures obj.None? ==> r == Ok(None)
    ensures obj.Some? ==> (r.Err? <==> 3 * |obj.value.verts| < Size(obj.value.shape))
    ensures r.Err? ==> r.error == LengthMismatch
    ensures r.Ok? && r.value.Some? ==> WellShaped(r.value.value) && r.value.value.shape == obj.value.shape
    ensures r.Ok? && r.value.Some? ==> r.value.value.values == Flatten(obj.value.verts)[..Size(obj.value.shape)]
  {
    match obj
    case None => Ok(None)
    case Some(o) =>
      var flat := Flatten(o.verts);
      var npoint := Size(o.shape);
      if |flat| < npoint then Err(LengthMismatch)
      else Ok(Some(Grid(flat[..npoint], o.shape)))
  }

  /** Storing a volume and reading it back returns the same volume. */
  lemma VolumeRoundTrip(g: Grid, current: Option<VolumeObject>)
    requires WellShaped(g)
    ensures GetVolume(BuildVolume(Some(g), current)) == Ok(Some(g))
  {
    var o := BuildVolume(Some(g), current).value;
    assert Flatten(o.verts)[..Size(g.shape)] == g.values;
  }
}
