/**
 * A whole structure (`Batoms`): one mesh whose vertices are all the atoms,
 * with per-atom attribute arrays (`species`, `species_index`, `scale`,
 * `show`, `model_style`, ...), shape keys holding the frames, the table of
 * species and their elements, the periodic boundary flags and an optional
 * volume. The placement transform is taken to be the identity.
 */
module BatomsModel {
  import opened Wrappers
  import opened Geometry
  import opened Labels
  import opened Occupancy
  import opened Lattice
  import opened Frames
  import opened Indices
  import opened Volume
  import BatomModel

  /** One entry of a per-atom attribute array. */
  datatype Value = Str(s: string) | Int(i: int) | Float(f: real) | Bool(b: bool)

  /** The mesh attribute types the add-on uses. */
  datatype Kind = StringKind | IntKind | FloatKind | BooleanKind

  datatype Attribute = Attribute(kind: Kind, data: seq<Value>)

  type Attributes = map<string, Attribute>

  /** A Python dict of attribute arrays: names in insertion order, each with its values. */
  type Updates = seq<(string, seq<Value>)>

  /** Periodic boundary conditions: one flag for all axes or one per axis. */
  datatype PbcArg = AllAxes(flag: bool) | EachAxis(flags: seq<bool>)

  datatype Batoms = Batoms(
    species: map<string, Composition>,
    positions: Positions,
    attributes: Attributes,
    keys: seq<Positions>,
    cell: Cell,
    pbc: seq<bool>,
    volume: Option<VolumeObject>)

  /** Every attribute array holds one entry per vertex, as the mesh guarantees. */
  predicate WellSized(attrs: Attributes, n: nat) {
    forall k :: k in attrs ==> |attrs[k].data| == n
  }

  /** A structure whose attribute arrays and shape keys match its atom count. */
  predicate Consistent(b: Batoms) {
    && WellSized(b.attributes, |b.positions|)
    && forall i :: 0 <= i < |b.keys| ==> |b.keys[i]| == |b.positions|
  }

  /** The attribute type `set_attributes` creates for a new name, read off its first value. */
  function KindOf(v: Value): (k: Option<Kind>)
    ensures k.None? <==> v.Bool?
    ensures v.Str? ==> k == Some(StringKind)
  {
    match v
    case Str(_) => Some(StringKind)
    case Int(_) => Some(IntKind)
    case Float(_) => Some(FloatKind)
    case Bool(_) => None
  }

  /**
   * One step of `set_attributes`: a new name gets the type of its first
   * value (bool is refused); a string attribute copies the first nvert
   * values one by one, any other type must get exactly nvert values.
   */
  function WriteAttribute(attrs: Attributes, nvert: nat, name: string, data: seq<Value>): (r: Result<Attributes>)
    ensures name !in attrs && |data| == 0 ==> r == Err(IndexOutOfRange)
    ensures name !in attrs && |data| > 0 && data[0].Bool? ==> r == Err(UnsupportedType)
    ensures name in attrs ==> (r.Ok? <==> Fits(attrs[name].kind, |data|, nvert))
    ensures name !in attrs && |data| > 0 && !data[0].Bool? ==>
      (r.Ok? <==> Fits(KindOf(data[0]).value, |data|, nvert))
    ensures r.Ok? ==> nvert <= |data| && name in r.value && r.value[name].data == data[..nvert]
    ensures r.Ok? && |data| != nvert ==> r.value[name].kind == StringKind
    ensures r.Ok? && name in attrs ==> r.value[name].kind == attrs[name].kind
    ensures r.Ok? ==> r.value.Keys == attrs.Keys + {name}
    ensures r.Ok? ==> forall k :: k in attrs && k != name ==> r.value[k] == attrs[k]
  {
    var kind :- if name in attrs then Ok(attrs[name].kind)
      else if |data| == 0 then Err(IndexOutOfRange)
      else if KindOf(data[0]).None? then Err(UnsupportedType)
      else Ok(KindOf(data[0]).value);
    if kind == StringKind then
      if |data| < nvert then Err(IndexOutOfRange) else Ok(attrs[name := Attribute(kind, data[..nvert])])
    else if |data| != nvert then Err(LengthMismatch)
    else
      assert data[..nvert] == data;
      Ok(attrs[name := Attribute(kind, data)])
  }

  /** The names of a dict. */
  function NameSet(u: Updates): (ns: set<string>)
    ensures forall j :: 0 <= j < |u| ==> u[j].0 in ns
  {
    if |u| == 0 then {} else {u[0].0} + NameSet(u[1..])
  }

  /** `d.get(name)`: the values stored under a name. */
  function Lookup(u: Updates, name: string): (v: Option<seq<Value>>)
    ensures v.Some? <==> name in NameSet(u)
  {
    if |u| == 0 then None
    else if u[0].0 == name then Some(u[0].1)
    else Lookup(u[1..], name)
  }

  /** Python dict keys are unique. */
  predicate DistinctNames(u: Updates) {
    |u| == 0 || (u[0].0 !in NameSet(u[1..]) && DistinctNames(u[1..]))
  }

  /** `set_attributes(attributes)`: the writes in dict order, stopping at the first failure. */
  function SetAttributes(attrs: Attributes, nvert: nat, u: Updates): (r: Result<Attributes>)
    ensures r.Ok? ==> r.value.Keys == attrs.Keys + NameSet(u)
    ensures r.Ok? ==> forall k :: k in attrs && k !in NameSet(u) ==> r.value[k] == attrs[k]
    decreases |u|
  {
    if |u| == 0 then Ok(attrs)
    else
      var first :- WriteAttribute(attrs, nvert, u[0].0, u[0].1);
      SetAttributes(first, nvert, u[1..])
  }

  /** Writing keeps every array at one entry per vertex. */
  lemma {:induction false} SetAttributesWellSized(attrs: Attributes, nvert: nat, u: Updates)
    requires WellSized(attrs, nvert) && SetAttributes(attrs, nvert, u).Ok?
    ensures WellSized(SetAttributes(attrs, nvert, u).value, nvert)
    decreases |u|
  {
    if |u| > 0 {
      var first := WriteAttribute(attrs, nvert, u[0].0, u[0].1).value;
      SetAttributesWellSized(first, nvert, u[1..]);
    }
  }

  /** After a successful call every named array holds the first nvert values it was given. */
  lemma {:induction false} SetAttributesWritten(attrs: Attributes, nvert: nat, u: Updates, name: string)
    requires DistinctNames(u) && name in NameSet(u) && SetAttributes(attrs, nvert, u).Ok?
    ensures nvert <= |Lookup(u, name).value|
    ensures SetAttributes(attrs, nvert, u).value[name].data == Lookup(u, name).value[..nvert]
    decreases |u|
  {
    var first := WriteAttribute(attrs, nvert, u[0].0, u[0].1).value;
    if u[0].0 != name {
      SetAttributesWritten(first, nvert, u[1..], name);
    }
  }

  /** Arrays of exactly nvert values for names that already exist are always accepted. */
  lemma {:induction false} SetAttributesFits(attrs: Attributes, nvert: nat, u: Updates)
    requires DistinctNames(u)
    requires forall name :: name in NameSet(u) ==> name in attrs && |Lookup(u, name).value| == nvert
    ensures SetAttributes(attrs, nvert, u).Ok?
    decreases |u|
  {
    if |u| > 0 {
      assert Lookup(u, u[0].0) == Some(u[0].1);
      var first := WriteAttribute(attrs, nvert, u[0].0, u[0].1).value;
      forall name | name in NameSet(u[1..])
        ensures name in first && |Lookup(u[1..], name).value| == nvert
      {
        assert Lookup(u, name) == Lookup(u[1..], name);
      }
      SetAttributesFits(first, nvert, u[1..]);
    }
  }

  /** An array of the wrong length for an existing attribute that is not a string is refused. */
  lemma {:induction false} SetAttributesRejects(attrs: Attributes, nvert: nat, u: Updates, name: string)
    requires name in NameSet(u) && name in attrs && attrs[name].kind != StringKind
    requires |Lookup(u, name).value| != nvert
    ensures SetAttributes(attrs, nvert, u).Err?
    decreases |u|
  {
    if u[0].0 != name {
      var first := WriteAttribute(attrs, nvert, u[0].0, u[0].1);
      if first.Ok? {
        SetAttributesRejects(first.value, nvert, u[1..], name);
      }
    }
  }

  /** `dict.update` with one pair: an existing name keeps its place, a new one goes last. */
  function Assoc(u: Updates, name: string, data: seq<Value>): (r: Updates)
    ensures NameSet(r) == NameSet(u) + {name}
    ensures Lookup(r, name) == Some(data)
    ensures forall other :: other != name ==> Lookup(r, other) == Lookup(u, other)
    decreases |u|
  {
    if |u| == 0 then [(name, data)]
    else if u[0].0 == name then
      var r := [(name, data)] + u[1..];
      assert r[1..] == u[1..];
      r
    else
      var r := [u[0]] + Assoc(u[1..], name, data);
      assert r[1..] == Assoc(u[1..], name, data);
      r
  }

  /** Updating a dict keeps its names distinct. */
  lemma {:induction false} AssocDistinct(u: Updates, name: string, data: seq<Value>)
    ensures DistinctNames(u) ==> DistinctNames(Assoc(u, name, data))
    decreases |u|
  {
    if |u| > 0 && DistinctNames(u) {
      var r := Assoc(u, name, data);
      if u[0].0 == name {
        assert r[1..] == u[1..];
      } else {
        assert r[1..] == Assoc(u[1..], name, data);
        AssocDistinct(u[1..], name, data);
      }
    }
  }

  /** A constant array of length n. */
  function Fill(n: nat, v: Value): (r: seq<Value>)
    ensures |r| == n && forall k :: 0 <= k < n ==> r[k] == v
  {
    seq(n, k => v)
  }

  /** The attributes a new mesh is given, zero-filled for its nvert vertices. */
  function DefaultAttributes(nvert: nat): (attrs: Attributes)
    ensures WellSized(attrs, nvert)
    ensures attrs.Keys == {"scale", "species_index", "species", "show", "select", "model_style", "radius_style"}
    ensures attrs["species"].kind == StringKind && attrs["show"].kind == BooleanKind
  {
    map[
      "scale" := Attribute(FloatKind, Fill(nvert, Float(0.0))),
      "species_index" := Attribute(IntKind, Fill(nvert, Int(0))),
      "species" := Attribute(StringKind, Fill(nvert, Str(""))),
      "show" := Attribute(BooleanKind, Fill(nvert, Bool(false))),
      "select" := Attribute(IntKind, Fill(nvert, Int(0))),
      "model_style" := Attribute(IntKind, Fill(nvert, Int(0))),
      "radius_style" := Attribute(IntKind, Fill(nvert, Int(0)))]
  }

  /** Without user-supplied species properties every label `sp` stands for `{sp.split('_')[0]: 1.0}`. */
  function DefaultSpeciesProps(species: seq<string>): (props: map<string, Composition>)
    ensures props.Keys == set sp | sp in species
  {
    map sp | sp in species :: [(ElementOf(sp), 1.0)]
  }

  /**
   * Every default table is already normalised, and its main element is the
   * label's prefix unless that prefix is the vacancy filler itself.
   */
  lemma DefaultSpeciesPropsNormalised(species: seq<string>, sp: string)
    requires sp in species
    ensures var c := DefaultSpeciesProps(species)[sp];
      && c == [(ElementOf(sp), 1.0)]
      && CheckElements(Table(c)) == Ok(c)
      && (ElementOf(sp) != Vacancy ==> MainElement(c) == Ok(ElementOf(sp)))
      && (ElementOf(sp) == Vacancy ==> MainElement(c) == Err(NoMainElement))
  {
    var c := [(ElementOf(sp), 1.0)];
    assert Total(c) == 1.0 by {
      assert c[1..] == [];
    }
    assert SortByOccupancy(c) == c by {
      assert c[1..] == [];
    }
  }

  /** The `scale` argument: one value for all atoms, or one per atom. */
  datatype ScaleArg = ScaleAll(value: real) | ScalePerAtom(values: seq<real>)

  /** `np.ones(natom)*scale` for a number; an array is used as given. */
  function ScaleColumn(scale: ScaleArg, natom: nat): (r: seq<Value>)
    ensures scale.ScaleAll? ==> |r| == natom && forall k :: 0 <= k < natom ==> r[k] == Float(scale.value)
    ensures scale.ScalePerAtom? ==> |r| == |scale.values| && forall k :: 0 <= k < |r| ==> r[k] == Float(scale.values[k])
  {
    match scale
    case ScaleAll(v) => Fill(natom, Float(v))
    case ScalePerAtom(vs) => seq(|vs|, k requires 0 <= k < |vs| => Float(vs[k]))
  }

  /** `set_pbc`: a single flag holds for all three axes. */
  function PbcFlags(pbc: PbcArg): (r: Result<seq<bool>>)
    ensures pbc.AllAxes? ==> r.Ok? && |r.value| == 3 && forall i :: 0 <= i < 3 ==> r.value[i] == pbc.flag
    ensures pbc.EachAxis? ==> (r.Ok? <==> |pbc.flags| == 3) && (r.Ok? ==> r.value == pbc.flags)
    ensures r.Err? ==> r.error == LengthMismatch
  {
    match pbc
    case AllAxes(flag) => Ok([flag, flag, flag])
    case EachAxis(flags) => if |flags| == 3 then Ok(flags) else Err(LengthMismatch)
  }

  function SetPbc(b: Batoms, pbc: PbcArg): (r: Result<Batoms>)
    ensures r.Ok? ==> |r.value.pbc| == 3 && r.value.(pbc := b.pbc) == b
    ensures pbc.AllAxes? ==> r.Ok? && forall i :: 0 <= i < 3 ==> r.value.pbc[i] == pbc.flag
  {
    var flags :- PbcFlags(pbc);
    Ok(b.(pbc := flags))
  }

  /** One flag and the same flag given per axis set the same boundary conditions. */
  lemma SetPbcUniform(b: Batoms, flag: bool)
    ensures SetPbc(b, AllAxes(flag)) == SetPbc(b, EachAxis([flag, flag, flag]))
  {
  }

  /**
   * `set_frames()` on a freshly built mesh whose vertices are frame 0: the
   * basis key takes frame 0 and every later frame gets its own key, so the
   * keys read back in order are exactly the frames.
   */
  function KeyFrames(frames: seq<Positions>): (r: Result<seq<Positions>>)
    requires |frames| >= 1
    ensures r.Err? <==> exists f :: 1 <= f < |frames| && |frames[f]| != |frames[0]|
    ensures r.Ok? ==> r.value == frames
  {
    var schedule :- SetFrames(frames, 0, false, |frames[0]|);
    var keys := [frames[0]] + seq(|schedule.keys|, j requires 0 <= j < |schedule.keys| => schedule.keys[j].coords);
    assert keys == frames by {
      assert forall i :: 1 <= i < |keys| ==> keys[i] == frames[i];
    }
    Ok(keys)
  }

  /** The constructor's arguments that the model follows. */
  datatype Settings = Settings(
    species: seq<string>,
    positions: PositionArray,
    attributes: Updates,
    speciesProps: map<string, Composition>,
    cell: Cell,
    pbc: PbcArg,
    volume: Option<Grid>,
    scale: ScaleArg,
    movie: bool)

  /** `len(positions)` of the argument as given: for a stack this is the number of frames. */
  function ArgumentLength(p: PositionArray): nat {
    match p
    case Rows(rows) => |rows|
    case Stack(stack) => |stack|
    case EmptyList => 0
  }

  /** The `species` array: one label per atom. */
  function LabelColumn(species: seq<string>): (r: seq<Value>)
    ensures |r| == |species| && forall k :: 0 <= k < |r| ==> r[k] == Str(species[k])
  {
    seq(|species|, k requires 0 <= k < |species| => Str(species[k]))
  }

  /** The `species_index` array: each label's number. */
  function NumberColumn(species: seq<string>, code: string -> int): (r: seq<Value>)
    ensures |r| == |species| && forall k :: 0 <= k < |r| ==> r[k] == Int(code(species[k]))
  {
    seq(|species|, k requires 0 <= k < |species| => Int(code(species[k])))
  }

  /**
   * The attribute writes of `__init__`: the caller's attributes, updated
   * with `species`, `species_index` (each label's number from `code`),
   * `scale` broadcast over natom entries and `show` set to 1 for natom atoms.
   */
  function InitialUpdates(s: Settings, code: string -> int, natom: nat): (u: Updates)
    ensures NameSet(u) == NameSet(s.attributes) + {"species", "species_index", "scale", "show"}
    ensures DistinctNames(s.attributes) ==> DistinctNames(u)
  {
    var u1 := Assoc(s.attributes, "species", LabelColumn(s.species));
    var u2 := Assoc(u1, "species_index", NumberColumn(s.species, code));
    var u3 := Assoc(u2, "scale", ScaleColumn(s.scale, natom));
    var u4 := Assoc(u3, "show", Fill(natom, Int(1)));
    AssocDistinct(s.attributes, "species", LabelColumn(s.species));
    AssocDistinct(u1, "species_index", NumberColumn(s.species, code));
    AssocDistinct(u2, "scale", ScaleColumn(s.scale, natom));
    AssocDistinct(u3, "show", Fill(natom, Int(1)));
    assert NameSet(u4) == NameSet(s.attributes) + {"species"} + {"species_index"} + {"scale"} + {"show"};
    u4
  }

  /**
   * Whatever the caller passed under these names, the constructor's own
   * values win: the labels, their numbers, the broadcast scale and `show` 1.
   */
  lemma InitialUpdatesLookup(s: Settings, code: string -> int, natom: nat)
    ensures var u := InitialUpdates(s, code, natom);
      && Lookup(u, "species") == Some(LabelColumn(s.species))
      && Lookup(u, "species_index") == Some(NumberColumn(s.species, code))
      && Lookup(u, "scale") == Some(ScaleColumn(s.scale, natom))
      && Lookup(u, "show") == Some(Fill(natom, Int(1)))
  {
    assert |"species"| == 7 && |"species_index"| == 13 && |"scale"| == 5 && |"show"| == 4;
    var u1 := Assoc(s.attributes, "species", LabelColumn(s.species));
    var u2 := Assoc(u1, "species_index", NumberColumn(s.species, code));
    var u3 := Assoc(u2, "scale", ScaleColumn(s.scale, natom));
    var u4 := Assoc(u3, "show", Fill(natom, Int(1)));
    assert u4 == InitialUpdates(s, code, natom);
    assert Lookup(u4, "species") == Lookup(u3, "species") == Lookup(u2, "species") == Lookup(u1, "species");
    assert Lookup(u4, "species_index") == Lookup(u3, "species_index") == Lookup(u2, "species_index");
    assert Lookup(u4, "scale") == Lookup(u3, "scale");
  }

  /**
   * The constructor once the frames and the attribute writes u are known:
   * species properties default per label, the attribute arrays are written, then the volume, cell and periodic flags
   * are stored, and with `movie` every frame is keyed.
   */
  function Build(s: Settings, u: Updates, traj: Trajectory): (r: Result<Batoms>)
    requires |traj.frames| >= 1 && traj.frames[0] == traj.positions
    ensures r.Ok? ==> r.value.positions == traj.positions && r.value.cell == s.cell
    ensures r.Ok? ==> r.value.species == if |s.speciesProps| == 0 then DefaultSpeciesProps(s.species) else s.speciesProps
    ensures r.Ok? ==> r.value.volume == BuildVolume(s.volume, None)
    ensures r.Ok? ==> SetAttributes(DefaultAttributes(|traj.positions|), |traj.positions|, u) == Ok(r.value.attributes)
    ensures r.Ok? ==> r.value.keys == if s.movie then traj.frames else []
    ensures r.Ok? ==> forall i :: 0 <= i < |r.value.keys| ==> |r.value.keys[i]| == |traj.positions|
    ensures r.Ok? ==> PbcFlags(s.pbc) == Ok(r.value.pbc)
    ensures PbcFlags(s.pbc).Err? ==> r.Err?
  {
    var nvert := |traj.positions|;
    var props := if |s.speciesProps| == 0 then DefaultSpeciesProps(s.species) else s.speciesProps;
    var attrs :- SetAttributes(DefaultAttributes(nvert), nvert, u);
    var pbc :- PbcFlags(s.pbc);
    var keys :- if s.movie then KeyFrames(traj.frames) else Ok([]);
    Ok(Batoms(props, traj.positions, attrs, keys, s.cell, pbc, BuildVolume(s.volume, None)))
  }

  /**
   * `Batoms.__init__` as written: `natom = len(positions)` is taken before a
   * stack of frames is reduced to frame 0, so `scale` and `show` get one
   * entry per frame instead of one per atom, and the write of `show` refuses
   * every stack whose frame count is not its atom count.
   */
  function CreateAsWritten(s: Settings, code: string -> int): (r: Result<Batoms>)
    ensures BatomsTrajectory(s.positions).Err? ==> r.Err?
    ensures r.Ok? ==> r.value.positions == BatomsTrajectory(s.positions).value.positions
    ensures r.Ok? && s.positions.Stack? ==>
      |s.positions.stack| > 0 && |s.positions.stack| == |s.positions.stack[0]|
  {
    var traj :- BatomsTrajectory(s.positions);
    var natom := ArgumentLength(s.positions);
    var nvert := |traj.positions|;
    var u := InitialUpdates(s, code, natom);
    var r := Build(s, u, traj);
    assert r.Ok? ==> natom == nvert by {
      if natom != nvert {
        InitialUpdatesLookup(s, code, natom);
        SetAttributesRejects(DefaultAttributes(nvert), nvert, u, "show");
      }
    }
    r
  }

  /**
   * `Batoms.__init__` with the atom count taken from frame 0: the result is
   * consistent, and with `movie` its shape keys read back as the frames.
   */
  function Create(s: Settings, code: string -> int): (r: Result<Batoms>)
    ensures BatomsTrajectory(s.positions).Err? ==> r.Err?
    ensures r.Ok? ==> Consistent(r.value)
    ensures r.Ok? ==> r.value.positions == BatomsTrajectory(s.positions).value.positions
    ensures r.Ok? && s.movie ==> r.value.keys == BatomsTrajectory(s.positions).value.frames
  {
    var traj :- BatomsTrajectory(s.positions);
    var n := |traj.positions|;
    var r := Build(s, InitialUpdates(s, code, n), traj);
    assert r.Ok? ==> WellSized(r.value.attributes, n) by {
      if r.Ok? {
        SetAttributesWellSized(DefaultAttributes(n), n, InitialUpdates(s, code, n));
      }
    }
    r
  }

  /**
   * With one label per atom and no attributes of the caller's, the
   * constructor's writes all fit a fresh mesh of n vertices: every atom gets
   * its label, the scalar scale and `show` 1.
   */
  lemma InitialAttributes(s: Settings, code: string -> int, n: nat)
    requires s.scale.ScaleAll? && s.attributes == [] && |s.species| == n
    ensures SetAttributes(DefaultAttributes(n), n, InitialUpdates(s, code, n)).Ok?
    ensures var attrs := SetAttributes(DefaultAttributes(n), n, InitialUpdates(s, code, n)).value;
      && attrs["species"].data == LabelColumn(s.species)
      && attrs["scale"].data == Fill(n, Float(s.scale.value))
      && attrs["show"].data == Fill(n, Int(1))
  {
    var u := InitialUpdates(s, code, n);
    InitialUpdatesLookup(s, code, n);
    var attrs0 := DefaultAttributes(n);
    assert NameSet(s.attributes) == {};
    assert NameSet(u) == {"species", "species_index", "scale", "show"};
    forall name | name in NameSet(u)
      ensures name in attrs0 && |Lookup(u, name).value| == n
    {
    }
    SetAttributesFits(attrs0, n, u);
    SetAttributesWritten(attrs0, n, u, "species");
    SetAttributesWritten(attrs0, n, u, "scale");
    SetAttributesWritten(attrs0, n, u, "show");
    assert ScaleColumn(s.scale, n) == Fill(n, Float(s.scale.value));
  }

  /**
   * A trajectory whose frames all hold one position per atom, with one label
   * per atom and no attributes of the caller's, is built: every atom gets
   * its label, the scalar scale and `show` 1.
   */
  lemma CreateBroadcastsScale(s: Settings, code: string -> int)
    requires s.scale.ScaleAll? && s.attributes == [] && s.pbc.AllAxes?
    requires BatomsTrajectory(s.positions).Ok?
    requires var traj := BatomsTrajectory(s.positions).value;
      && |s.species| == |traj.positions|
      && forall f :: 0 <= f < |traj.frames| ==> |traj.frames[f]| == |traj.positions|
    ensures Create(s, code).Ok?
    ensures var b := Create(s, code).value;
      && "species" in b.attributes && "scale" in b.attributes && "show" in b.attributes
      && (forall k :: 0 <= k < |b.positions| ==> b.attributes["species"].data[k] == Str(s.species[k]))
      && (forall k :: 0 <= k < |b.positions| ==> b.attributes["scale"].data[k] == Float(s.scale.value))
      && (forall k :: 0 <= k < |b.positions| ==> b.attributes["show"].data[k] == Int(1))
  {
    var traj := BatomsTrajectory(s.positions).value;
    var n := |traj.positions|;
    var u := InitialUpdates(s, code, n);
    InitialAttributes(s, code, n);
    assert s.movie ==> KeyFrames(traj.frames).Ok?;
    var r := Build(s, u, traj);
    assert r.Ok?;
    assert Create(s, code) == r;
  }

  /** For a single frame or the empty default, the as-written constructor is the corrected one. */
  lemma CreateAsWrittenAgrees(s: Settings, code: string -> int)
    requires !s.positions.Stack?
    ensures CreateAsWritten(s, code) == Create(s, code)
  {
  }

  /**
   * A one-atom, two-frame trajectory: rejected as written, built once the
   * atom count is taken from frame 0.
   */
  lemma NatomCountsFrames(cell: Cell, code: string -> int, p: Vec3)
    ensures var s := Settings(["H"], Stack([[p], [p]]), [], map[], cell, AllAxes(false), None, ScaleAll(1.0), true);
      && CreateAsWritten(s, code).Err?
      && Create(s, code).Ok?
  {
    var frames := [[p], [p]];
    var s := Settings(["H"], Stack(frames), [], map[], cell, AllAxes(false), None, ScaleAll(1.0), true);
    var traj := Trajectory([p], frames);
    forall f | 0 <= f < |traj.frames|
      ensures |traj.frames[f]| == |traj.positions|
    {
      assert f == 0 || f == 1;
    }
    assert BatomsTrajectory(s.positions) == Ok(traj);
    CreateBroadcastsScale(s, code);
    assert |frames| == 2 && |frames[0]| == 1;
  }

  /** `set_positions`: one position per atom; the basis shape key receives them. */
  function SetPositions(b: Batoms, ps: Positions): (r: Result<Batoms>)
    ensures |ps| != |b.positions| ==> r == Err(LengthMismatch)
    ensures |ps| == |b.positions| && |b.keys| == 0 ==> r == Err(NoShapeKeys)
    ensures r.Ok? ==> r.value.positions == ps && |r.value.keys| == |b.keys| && r.value.keys[0] == ps
    ensures r.Ok? ==> forall i :: 1 <= i < |b.keys| ==> r.value.keys[i] == b.keys[i]
    ensures r.Ok? ==> r.value.attributes == b.attributes && r.value.species == b.species
    ensures r.Ok? && Consistent(b) ==> Consistent(r.value)
    ensures r.Ok? ==> r.value.(positions := b.positions, keys := b.keys) == b
  {
    if |ps| != |b.positions| then Err(LengthMismatch)
    else if |b.keys| == 0 then Err(NoShapeKeys)
    else Ok(b.(positions := ps, keys := b.keys[0 := ps]))
  }

  /** Writing back the positions the basis already holds changes nothing. */
  lemma SetPositionsUnchanged(b: Batoms)
    requires |b.keys| > 0 && b.keys[0] == b.positions
    ensures SetPositions(b, b.positions) == Ok(b)
  {
    assert b.keys[0 := b.positions] == b.keys;
  }

  /**
   * `set_attribute_with_indices(name, indices, value)`: the named array is
   * read, `data[indices] = value` is applied and the array is written back.
   */
  function SetAttributeWithIndices(b: Batoms, name: string, sel: Selector, v: Value): (r: Result<Batoms>)
    requires WellSized(b.attributes, |b.positions|)
    ensures name !in b.attributes ==> r == Err(MissingAttribute(name))
    ensures name in b.attributes ==> (r.Err? <==> Assign(b.attributes[name].data, sel, v).Err?)
    ensures r.Ok? ==> r.value.(attributes := b.attributes) == b
    ensures r.Ok? ==> name in b.attributes && r.value.attributes.Keys == b.attributes.Keys
    ensures r.Ok? ==> WellSized(r.value.attributes, |b.positions|)
    ensures r.Ok? ==> r.value.attributes[name].kind == b.attributes[name].kind
    ensures r.Ok? ==> forall k :: 0 <= k < |b.positions| ==>
      r.value.attributes[name].data[k] == if Selected(sel, |b.positions|, k) then v else b.attributes[name].data[k]
    ensures r.Ok? ==> forall other :: other in b.attributes && other != name ==>
      r.value.attributes[other] == b.attributes[other]
  {
    if name !in b.attributes then Err(MissingAttribute(name))
    else
      var data :- Assign(b.attributes[name].data, sel, v);
      var attrs := WriteAttribute(b.attributes, |b.positions|, name, data).value;
      Ok(b.(attributes := attrs))
  }

  /** The number a value compares as in `model_style == k`. */
  predicate ComparesEqual(v: Value, k: int) {
    match v
    case Int(i) => i == k
    case Float(f) => f == k as real
    case Bool(x) => (if x then 1 else 0) == k
    case Str(_) => false
  }

  /** `np.where(self.model_style == style, True, False)`. */
  function StyleMask(b: Batoms, style: int): (r: Result<seq<bool>>)
    ensures "model_style" !in b.attributes ==> r == Err(MissingAttribute("model_style"))
    ensures r.Ok? ==> "model_style" in b.attributes && |r.value| == |b.attributes["model_style"].data|
    ensures r.Ok? ==> forall k :: 0 <= k < |r.value| ==>
      (r.value[k] <==> ComparesEqual(b.attributes["model_style"].data[k], style))
  {
    if "model_style" !in b.attributes then Err(MissingAttribute("model_style"))
    else
      var styles := b.attributes["model_style"].data;
      Ok(seq(|styles|, k requires 0 <= k < |styles| => ComparesEqual(styles[k], style)))
  }

  /** The default `scale` arguments of `draw_space_filling` and `draw_ball_and_stick`. */
  const SpaceFillingScale: real := 1.0
  const BallAndStickScale: real := 0.4

  /** `draw_space_filling(scale)`: atoms drawn in style 0 get the given scale. */
  function DrawSpaceFilling(b: Batoms, scale: real): (r: Result<Batoms>)
    requires WellSized(b.attributes, |b.positions|)
    ensures "model_style" !in b.attributes ==> r == Err(MissingAttribute("model_style"))
    ensures "model_style" in b.attributes && "scale" !in b.attributes ==> r == Err(MissingAttribute("scale"))
    ensures "model_style" in b.attributes && "scale" in b.attributes ==> r.Ok?
    ensures r.Ok? ==> r.value.(attributes := b.attributes) == b && r.value.attributes.Keys == b.attributes.Keys
    ensures r.Ok? ==> forall other :: other in b.attributes && other != "scale" ==>
      r.value.attributes[other] == b.attributes[other]
  {
    var mask :- StyleMask(b, 0);
    SetAttributeWithIndices(b, "scale", ByMask(mask), Float(scale))
  }

  /** `draw_ball_and_stick(scale)`: atoms drawn in style 1 get the given scale. */
  function DrawBallAndStick(b: Batoms, scale: real): (r: Result<Batoms>)
    requires WellSized(b.attributes, |b.positions|)
    ensures "model_style" !in b.attributes ==> r == Err(MissingAttribute("model_style"))
    ensures "model_style" in b.attributes && "scale" !in b.attributes ==> r == Err(MissingAttribute("scale"))
    ensures "model_style" in b.attributes && "scale" in b.attributes ==> r.Ok?
    ensures r.Ok? ==> r.value.(attributes := b.attributes) == b && r.value.attributes.Keys == b.attributes.Keys
    ensures r.Ok? ==> forall other :: other in b.attributes && other != "scale" ==>
      r.value.attributes[other] == b.attributes[other]
  {
    var mask :- StyleMask(b, 1);
    SetAttributeWithIndices(b, "scale", ByMask(mask), Float(scale))
  }

  /** `draw_wireframe()`: atoms drawn in style 3 are hidden and shrunk to scale 0.0001. */
  function DrawWireframe(b: Batoms): (r: Result<Batoms>)
    requires WellSized(b.attributes, |b.positions|)
    ensures "model_style" !in b.attributes ==> r == Err(MissingAttribute("model_style"))
    ensures "model_style" in b.attributes && "show" !in b.attributes ==> r == Err(MissingAttribute("show"))
    ensures "model_style" in b.attributes && "show" in b.attributes && "scale" !in b.attributes ==>
      r == Err(MissingAttribute("scale"))
    ensures "model_style" in b.attributes && "show" in b.attributes && "scale" in b.attributes ==> r.Ok?
    ensures r.Ok? ==> r.value.(attributes := b.attributes) == b && r.value.attributes.Keys == b.attributes.Keys
    ensures r.Ok? ==> forall other :: other in b.attributes && other != "scale" && other != "show" ==>
      r.value.attributes[other] == b.attributes[other]
  {
    var mask :- StyleMask(b, 3);
    var hidden :- SetAttributeWithIndices(b, "show", ByMask(mask), Int(0));
    SetAttributeWithIndices(hidden, "scale", ByMask(mask), Float(0.0001))
  }

  /** A structure that has the three attribute arrays the drawing steps use. */
  predicate Drawable(b: Batoms) {
    && WellSized(b.attributes, |b.positions|)
    && "model_style" in b.attributes && "scale" in b.attributes && "show" in b.attributes
  }

  /** Space filling succeeds and sets the given scale on exactly the atoms of style 0. */
  lemma DrawSpaceFillingEffect(b: Batoms, scale: real, k: nat)
    requires Drawable(b) && k < |b.positions|
    ensures DrawSpaceFilling(b, scale).Ok?
    ensures DrawSpaceFilling(b, scale).value.attributes["scale"].data[k] ==
      if ComparesEqual(b.attributes["model_style"].data[k], 0) then Float(scale) else b.attributes["scale"].data[k]
  {
  }

  /** Ball and stick succeeds and sets the given scale on exactly the atoms of style 1. */
  lemma DrawBallAndStickEffect(b: Batoms, scale: real, k: nat)
    requires Drawable(b) && k < |b.positions|
    ensures DrawBallAndStick(b, scale).Ok?
    ensures DrawBallAndStick(b, scale).value.attributes["scale"].data[k] ==
      if ComparesEqual(b.attributes["model_style"].data[k], 1) then Float(scale) else b.attributes["scale"].data[k]
  {
  }

  /** Wireframe succeeds and hides and shrinks exactly the atoms of style 3. */
  lemma DrawWireframeEffect(b: Batoms, k: nat)
    requires Drawable(b) && k < |b.positions|
    ensures DrawWireframe(b).Ok?
    ensures var style := b.attributes["model_style"].data[k];
      && DrawWireframe(b).value.attributes["scale"].data[k] ==
           (if ComparesEqual(style, 3) then Float(0.0001) else b.attributes["scale"].data[k])
      && DrawWireframe(b).value.attributes["show"].data[k] ==
           (if ComparesEqual(style, 3) then Int(0) else b.attributes["show"].data[k])
      && DrawWireframe(b).value.attributes["model_style"] == b.attributes["model_style"]
  {
    var mask := StyleMask(b, 3).value;
    var hidden := SetAttributeWithIndices(b, "show", ByMask(mask), Int(0)).value;
    assert hidden.attributes["scale"] == b.attributes["scale"];
    assert hidden.attributes["model_style"] == b.attributes["model_style"];
  }

  /** The elements a species is registered with when `replace` meets it first. */
  function Registered(species: string, elements: Option<Composition>): Composition {
    if elements.None? then [(ReplacementElementOf(species), 1.0)] else elements.value
  }

  /**
   * `replace(indices, species, elements)`: an unknown species is first
   * registered, by default as `{species.split('_1')[0]: 1.0}`; then the
   * `species_index` and `species` arrays take the new species at the
   * given indices.
   */
  function Replace(b: Batoms, sel: Selector, species: string, elements: Option<Composition>, code: string -> int): (r: Result<Batoms>)
    requires WellSized(b.attributes, |b.positions|)
    ensures r.Ok? ==> species in r.value.species
    ensures r.Ok? && species in b.species ==> r.value.species == b.species
    ensures r.Ok? && species !in b.species ==> r.value.species == b.species[species := Registered(species, elements)]
    ensures r.Ok? ==> r.value.positions == b.positions && r.value.keys == b.keys
    ensures r.Ok? ==> "species" in b.attributes && "species_index" in b.attributes
    ensures r.Ok? ==> r.value.attributes.Keys == b.attributes.Keys && WellSized(r.value.attributes, |b.positions|)
    ensures r.Ok? ==> forall k :: 0 <= k < |b.positions| ==>
      && r.value.attributes["species"].data[k] ==
           (if Selected(sel, |b.positions|, k) then Str(species) else b.attributes["species"].data[k])
      && r.value.attributes["species_index"].data[k] ==
           (if Selected(sel, |b.positions|, k) then Int(code(species)) else b.attributes["species_index"].data[k])
    ensures r.Ok? ==> forall other :: other in b.attributes && other != "species" && other != "species_index" ==>
      r.value.attributes[other] == b.attributes[other]
    ensures r.Ok? ==> r.value.(species := b.species, attributes := b.attributes) == b
    ensures ("species" in b.attributes && "species_index" in b.attributes &&
             Assign(b.attributes["species"].data, sel, Str(species)).Ok?) ==> r.Ok?
  {
    var props := if species in b.species then b.species else b.species[species := Registered(species, elements)];
    var registered := b.(species := props);
    var indexed :- SetAttributeWithIndices(registered, "species_index", sel, Int(code(species)));
    SetAttributeWithIndices(indexed, "species", sel, Str(species))
  }

  /** Every attribute array tiled M times, as `np.tile(data, M)`. */
  function TileAttributes(attrs: Attributes, copies: nat): (r: Attributes)
    ensures r.Keys == attrs.Keys
    ensures forall k :: k in attrs ==> r[k].kind == attrs[k].kind && |r[k].data| == Mul(copies, |attrs[k].data|)
  {
    map k | k in attrs :: Attribute(attrs[k].kind, Tile(attrs[k].data, copies))
  }

  /** Entry j of a tiled array is entry j mod n of the original. */
  lemma TileAttributesAt(attrs: Attributes, copies: nat, name: string, j: nat)
    requires name in attrs && j < |TileAttributes(attrs, copies)[name].data|
    ensures |attrs[name].data| > 0
    ensures TileAttributes(attrs, copies)[name].data[j] == attrs[name].data[j % |attrs[name].data|]
  {
    TileRepeats(attrs[name].data, copies, j);
  }

  /** Whether `set_attributes` accepts an array of n values for nvert vertices. */
  predicate Fits(kind: Kind, n: nat, nvert: nat) {
    if kind == StringKind then n >= nvert else n == nvert
  }

  /**
   * Writing back all arrays after the vertices were added: every array must
   * fit the new vertex count; strings keep their first nvert values.
   */
  function WriteAll(attrs: Attributes, nvert: nat): (r: Result<Attributes>)
    ensures r.Ok? <==> forall k :: k in attrs ==> Fits(attrs[k].kind, |attrs[k].data|, nvert)
    ensures r.Err? ==> r.error == LengthMismatch
    ensures r.Ok? ==> r.value.Keys == attrs.Keys && WellSized(r.value, nvert)
    ensures r.Ok? ==> forall k :: k in attrs ==>
      r.value[k].kind == attrs[k].kind && nvert <= |attrs[k].data| && r.value[k].data == attrs[k].data[..nvert]
  {
    if forall k :: k in attrs ==> Fits(attrs[k].kind, |attrs[k].data|, nvert) then
      Ok(map k | k in attrs :: Attribute(attrs[k].kind, attrs[k].data[..nvert]))
    else Err(LengthMismatch)
  }

  /**
   * `batoms *= m`: the lattice check, positions and shape keys as for a
   * species, and every attribute array tiled `mx·my·mz` times and written
   * back for the new vertex count. The shape keys keep their number; the
   * species, cell, periodic flags and volume are left as they were.
   */
  function Repeat(b: Batoms, m: Multiplicity): (r: Result<Batoms>)
    ensures CheckRepeat(m, b.cell).Err? ==> r == Err(UndefinedLattice)
    ensures r.Ok? ==> CheckRepeat(m, b.cell).Ok?
    ensures r.Ok? ==> |b.positions| <= |r.value.positions| && r.value.positions[..|b.positions|] == b.positions
    ensures r.Ok? ==> r.value.species == b.species && r.value.cell == b.cell && r.value.attributes.Keys == b.attributes.Keys
    ensures r.Ok? ==> WellSized(r.value.attributes, |r.value.positions|)
    ensures r.Ok? ==> |r.value.keys| == |b.keys|
    ensures r.Ok? ==> r.value.(positions := b.positions, keys := b.keys, attributes := b.attributes) == b
  {
    var t :- CheckRepeat(m, b.cell);
    var traj :- BatomModel.RepeatTrajectory(b.positions, b.keys, t, b.cell);
    var attrs :- WriteAll(TileAttributes(b.attributes, Copies(t)), |traj.positions|);
    Ok(b.(positions := traj.positions, keys := traj.frames, attributes := attrs))
  }

  /**
   * With every multiplicity at least 1 on a consistent structure the repeat
   * succeeds and stays consistent: the atoms are the lattice repeat of the
   * old ones, and new atom j carries every attribute of old atom j mod n.
   */
  lemma RepeatTilesAttributes(b: Batoms, m: Multiplicity, name: string, j: nat)
    requires Consistent(b) && CheckRepeat(m, b.cell).Ok?
    requires Counts(m).x >= 1 && Counts(m).y >= 1 && Counts(m).z >= 1
    requires name in b.attributes && |b.positions| > 0 && j < Mul(Copies(Counts(m)), |b.positions|)
    ensures Repeat(b, m).Ok? && Consistent(Repeat(b, m).value)
    ensures Repeat(b, m).value.positions == RepeatPositions(b.positions, Counts(m), b.cell)
    ensures Repeat(b, m).value.attributes[name].data[j] == b.attributes[name].data[j % |b.positions|]
    ensures |b.keys| >= 1 ==>
      Repeat(b, m).value.keys[0] == b.keys[0] + RepeatPositions(b.positions, Counts(m), b.cell)[|b.positions|..]
    ensures forall i :: 1 <= i < |b.keys| ==> Repeat(b, m).value.keys[i] == RepeatPositions(b.keys[i], Counts(m), b.cell)
  {
    var t := Counts(m);
    BatomModel.RepeatLayout(b.positions, b.keys, t, b.cell);
    var traj := BatomModel.RepeatTrajectory(b.positions, b.keys, t, b.cell).value;
    var tiled := TileAttributes(b.attributes, Copies(t));
    assert WriteAll(tiled, |traj.positions|).Ok?;
    TileAttributesAt(b.attributes, Copies(t), name, j);
    assert forall i :: 0 <= i < |traj.frames| ==> |traj.frames[i]| == |traj.positions|;
  }

  /**
   * `delete(index)`: the addressed atoms leave the mesh, every attribute
   * array and every shape key; the structure's object is removed once no
   * atom is left.
   */
  function Delete(b: Batoms, arg: DeleteArg): (r: Result<Option<Batoms>>)
    ensures DeleteIndices(arg).Err? ==> r == Err(EmptyIndex)
    ensures DeleteIndices(arg).Ok? ==> (r.Err? <==> !AllInRange(DeleteIndices(arg).value, |b.positions|))
    ensures r.Ok? ==> var keep := Survivors(|b.positions|, DeleteIndices(arg).value).value;
      && (r.value.None? <==> |keep| == 0)
      && (r.value.Some? ==> r.value.value.positions == Select(b.positions, keep))
      && (r.value.Some? ==> r.value.value.attributes.Keys == b.attributes.Keys)
      && (r.value.Some? && Consistent(b) ==>
            && Consistent(r.value.value)
            && forall name :: name in b.attributes ==>
                 r.value.value.attributes[name].data == Select(b.attributes[name].data, keep))
    ensures r.Ok? && r.value.Some? ==>
      r.value.value.(positions := b.positions, attributes := b.attributes, keys := b.keys) == b
    ensures r.Ok? && r.value.Some? && Consistent(b) ==>
      var keep := Survivors(|b.positions|, DeleteIndices(arg).value).value;
      && |r.value.value.keys| == |b.keys|
      && forall i :: 0 <= i < |b.keys| ==> r.value.value.keys[i] == Select(b.keys[i], keep)
  {
    var ks :- DeleteIndices(arg);
    var n := |b.positions|;
    var keep :- Survivors(n, ks);
    if |keep| == 0 then Ok(None)
    else
      var attrs := map name | name in b.attributes ::
        Attribute(b.attributes[name].kind, KeepRows(b.attributes[name].data, n, keep));
      var keys := seq(|b.keys|, i requires 0 <= i < |b.keys| => KeepRows(b.keys[i], n, keep));
      Ok(Some(b.(positions := Select(b.positions, keep), attributes := attrs, keys := keys)))
  }
}
