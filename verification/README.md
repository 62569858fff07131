# Batoms data layer in Dafny

Beneath the Blender glue, the Batoms add-on keeps a small layer of pure
bookkeeping. This project models it and proves properties of it. A species of
atoms (`Batom`) is a mesh of atom positions with an element/occupancy table.
Its frames are stored as shape keys. A whole structure (`Batoms`) is one mesh
whose vertices are all the atoms. That mesh carries per-atom attribute arrays
(`species`, `species_index`, `scale`, `show`, `model_style`, ...), shape keys,
a table of species, periodic boundary flags and an optional volume.

Modules, in dependency order:

- `Wrappers`: `Option`, `Result` and `Error`. `Error` has one constructor per exception the modelled code raises.
- `Geometry`: vectors and the three lattice vectors of a cell.
- `Labels`: `label.split(sep)[0]`, which derives element names from species labels.
- `Occupancy`: `check_elements` normalisation, Python's stable descending-occupancy sort, and `main_element`.
- `Materials`: the face/material partition of `assign_materials`.
- `Lattice`: the multiplicity check of a repeat, `np.tile`, and the block-by-block lattice translation.
- `Frames`: the shape-key and keyframe schedule of `set_frames`, and how the constructors shape their positions argument.
- `Indices`: masks to index lists, negative indices, numpy fancy assignment, and the order-keeping vertex deletion.
- `Volume`: packing a volume into mesh vertices and unpacking it again.
- `BatomModel`: a species (`batom.py`).
- `BatomsModel`: a structure (`batoms.py`).

The host scene is an immutable record. Every operation is a total function
that returns `Result`, and each Python exception is an `Err`. Positions,
occupancies and face angles are mathematical reals. The placement transform is
the identity, so local and global positions coincide.

## Model

| member | source | states |
|---|---|---|
| Occupancy.CheckElements | batom.py:291-302 | A symbol becomes `{s: 1.0}`. A table summing above 1 + 1e-6 is rejected exactly then. A table within tolerance is returned unchanged. An under-occupied table gains `'X' = 1 - total`: existing entries are untouched, `'X'` goes last and the total becomes 1. |
| Occupancy.CheckedTotalNearOne | batom.py:296-302 | Whatever `check_elements` accepts has a total within 1e-6 of 1. |
| Occupancy.CheckedKeysDistinct | batom.py:296-299 | Normalisation keeps the element names unique. |
| Occupancy.PutEffect | batom.py:297-299 | Dict assignment `d[k] = v` keeps the key order, appending k only when it is new. The total gains v less k's old occupancy, which is 0 when k is new. |
| Occupancy.FillVacancy | batom.py:297-299 | Adding the missing fraction under `'X'` to a table without it appends one key and makes the total 1. An existing `'X'` is overwritten in place, so the total is 1 minus its old value. |
| Occupancy.PutKeys | batom.py:299 | A dict assignment keeps an existing key's place and appends a new key last. |
| Occupancy.PutTotal | batom.py:299 | A dict assignment changes the total by the new value minus the old one. |
| Occupancy.SortByOccupancy | batom.py:205 | `sorted(..., key=-occupancy)` gives a descending order of the same length. |
| Occupancy.SortPermutes | batom.py:205 | The sort is a permutation of the entries. |
| Occupancy.SortPermutesKeys | batom.py:205 | The sort is a permutation of the element names. |
| Occupancy.SortIsStable | batom.py:205 | Entries of equal occupancy keep their dict order. |
| Occupancy.AtMostOneVacancy | batom.py:297-299 | A table with unique keys holds at most one `'X'`. |
| Occupancy.SortedHeadIsMain | batom.py:332-339 | The head of the sorted non-vacancy entries is the first-defined element of highest occupancy. |
| Occupancy.MainElement | batom.py:332-339 | The only failure is the IndexError of a table with no element besides `'X'`. |
| Occupancy.MainElementIsMain | batom.py:332-339 | For unique keys, `main_element` succeeds iff some element is not `'X'`. It is never `'X'`, and it is the first-defined element of highest occupancy. |
| Materials.AssignMaterials | batom.py:201-229 | One slot per element. With at most one element no face changes. Otherwise each face takes the last sorted entry (index ≥ 1) whose open wedge holds its angle, or keeps its index. |
| Materials.SlotsInOccupancyOrder | batom.py:205-208 | Materials are appended once per element, in non-increasing occupancy order. |
| Materials.WedgesDisjoint | batom.py:223-227 | For non-negative occupancies, no angle lies in two wedges. |
| Materials.AssignMaterialsPartition | batom.py:223-229 | A face whose angle lies in the wedge `(Σ occ 1..i-1, Σ occ 1..i)` gets index i. A face in no wedge keeps its previous index. |
| Materials.AssignMaterialsIdempotent | batom.py:201-229 | Running the assignment again on its own output changes nothing. |
| Materials.Sweep | batom.py:223-228 | After the loop has run for entries 1..i-1, each face holds the last entry so far whose wedge holds it, or its old index. |
| Lattice.CheckRepeat | batom.py:773-778 | An int m becomes (m, m, m). The repeat is refused exactly when some count ≠ 1 lies along an all-zero lattice vector. |
| Lattice.Tile | batoms.py:1065-1068 | `np.tile` over rows gives copies·n rows. |
| Lattice.TileRepeats | batoms.py:1066-1068 | Row j of a tiled array is row j mod n of the original. |
| Lattice.BlockOrder | batom.py:785-791 | The nested loops visit mx·my·mz blocks. |
| Lattice.BlockOrderAt | batom.py:785-791 | Block (m0, m1, m2) is visited at position (m0·my + m1)·mz + m2, with m0 outermost and m2 innermost. |
| Lattice.BlockCountAndIndex | batom.py:779-791 | The block count is mx·my·mz, and block indices follow the nested-loop order. |
| Lattice.TranslatedCopies | batom.py:785-791 | The translated copies hold one block of n rows per offset. |
| Lattice.RepeatPositions | batom.py:779-791 | The repeated positions have n·mx·my·mz rows. |
| Lattice.RepeatRow | batom.py:785-791 | Row i of block q is atom i shifted by that block's lattice offset. |
| Lattice.RepeatBlock | batom.py:785-791 | Atom i of block (m0, m1, m2) sits at `p[i] + m0·a + m1·b + m2·c`. |
| Lattice.RepeatKeepsFirstBlock | batom.py:785-792 | Block 0 is the original positions, so `positions[n:]` are exactly the new atoms. |
| Frames.Window | batom.py:697-704 | Frame i gets weights 0, 1, 0 at scene frames s+i-1, s+i, s+i+1. The last frame gets 0, 1 at s+i-1, s+i. |
| Frames.KeysFrom | batom.py:690-704 | Each frame from i on becomes one key with its coordinates and window. The first frame of another length fails. |
| Frames.SetFrames | batom.py:659-704 | No frames adds nothing. `only_basis` stops after the basis key. Otherwise frames 1..n-1 get one key each, in order, failing iff some frame has the wrong length. |
| Frames.KeyedOnce | batoms.py:990-1012 | Frame 0 is never keyed, every later frame gets exactly one key, and no frame gets two. |
| Frames.ValueAt | batom.py:697-704 | Reading a key's weight at a scene frame finds a keyframe at that time, or reports that none exists. |
| Frames.OnlyFrameAtPeak | batom.py:690-704 | At scene frame s+i, the key of frame i is at 1, its neighbours are at 0, and no other key is keyed: the mesh shows frame i only. |
| Frames.BatomTrajectory | batom.py:90-97 | A 2-D array is one frame. A 3-D array is the stack, with frame 0 as positions. The 1-D `[]` raises. |
| Frames.BatomsTrajectory | batoms.py:123-130 | A 3-D array is the stack, with frame 0 as positions. Anything else, `[]` included, is a stack of one frame. |
| Frames.TrajectoryRoundTrip | batom.py:90-97 | Shaping a stack whose frame 0 is its positions gives back the same trajectory. |
| Indices.Where | batom.py:636-637 | `np.where(mask)[0]` is ascending and holds k iff `mask[k]`. |
| Indices.WhereRoundTrip | batom.py:636-637 | Mask to indices to mask is the identity. An ascending index list is the `where` of its own mask. |
| Indices.Overwrite | batoms.py:667-670 | Element-wise writes hit exactly the addressed elements, negative indices wrapped. |
| Indices.Assign | batoms.py:667-670 | `data[indices] = v` changes exactly the selected entries. A mask of the wrong length or an index outside [-n, n) raises. |
| Indices.AssignMaskAsIndices | batoms.py:667-670 | Assigning through a mask equals assigning through its `where` list. |
| Indices.AssignIdempotent | batoms.py:667-670 | Assigning the same value twice equals assigning it once. |
| Indices.DeleteIndices | batom.py:623-640 | `index[0]` of an empty list raises. Flags become the positions of their true entries, and numbers pass through. |
| Indices.Survivors | batom.py:606-621 | The kept vertices ascend and are exactly those no index addresses. An index outside [-n, n) raises. |
| Indices.DeleteByMask | batom.py:636-640 | Deleting by flags keeps exactly the vertices whose flag is false, in order. |
| Volume.Padding | batoms.py:290 | `3 - n % 3` pads with one to three zeros up to a multiple of 3. |
| Volume.FlattenTriples | batoms.py:292 | Grouping the values into vertices loses nothing. |
| Volume.Pack | batoms.py:286-292 | The vertices read back as the values followed by the padding zeros. |
| Volume.BuildVolume | batoms.py:277-300 | No volume leaves the stored one. A volume is stored padded, with its shape. |
| Volume.GetVolume | batoms.py:339-351 | No object gives `None`. Otherwise the first `prod(shape)` values are reshaped, failing iff there are fewer. |
| Volume.VolumeRoundTrip | batoms.py:277-351 | Storing a volume and reading it back returns the same volume. |
| Labels.SplitHead | batom.py:98-99 | `s.split(sep)[0]` is the longest prefix before the first occurrence of sep, or all of s. |
| Labels.SplitHeadUnique | batom.py:98-99 | The prefix that stops at the first separator is the only such prefix. |
| Labels.ElementOfJoin | batom.py:98-99 | For a label `el_tag` whose element has no `'_'`, the default element is `el`. |
| BatomModel.Create | batom.py:89-115 | The positions are shaped into frames. The elements default to the label's prefix and are normalised, failing iff `check_elements` fails. The stored table is the one `check_elements` returns for the given elements. The basis key holds frame 0. |
| BatomModel.SetPositions | batom.py:416-424 | Fails iff the length differs from the atom count. Otherwise only the positions change. |
| BatomModel.SetPositionsLaws | batom.py:416-424 | Writing back the current positions is a no-op, and the last of two writes wins. |
| BatomModel.Delete | batom.py:606-640 | An empty index list raises. An out-of-range index raises. The survivors keep their order in the mesh and in every shape key. The object goes iff no atom remains. |
| BatomModel.RepeatTrajectory | batom.py:779-806 | Old atoms stay first. The number of shape keys is kept, and at most one key always succeeds. |
| BatomModel.RepeatLayout | batom.py:779-806 | With counts ≥ 1, the atoms are the lattice repeat. Every later shape key is repeated the same way, and the basis gains the new atoms. |
| BatomModel.Repeat | batom.py:765-806 | A refused lattice gives UndefinedLattice. On success old atoms stay first and names are kept. With counts ≥ 1 on a consistent species, the atoms are the lattice repeat and the species stays consistent. Every later key is its own frame's lattice repeat, and the basis key keeps its rows and gains the new atoms. |
| BatomsModel.KindOf | batoms.py:643-656 | A new attribute takes its type from its first value, and bool is refused. |
| BatomsModel.WriteAttribute | batoms.py:643-662 | A new name with no data or with a bool first value raises. A write succeeds iff the length fits the attribute's type, whether the attribute exists or is new: a string attribute needs at least nvert values and takes the first nvert, and any other type needs exactly nvert. Other attributes are untouched. |
| BatomsModel.SetAttributes | batoms.py:640-664 | After the writes, in dict order, the names are the old ones plus the dict's, and unwritten attributes are unchanged. |
| BatomsModel.SetAttributesWellSized | batoms.py:640-664 | Every array keeps one entry per vertex. |
| BatomsModel.SetAttributesWritten | batoms.py:640-664 | Every named array holds the first nvert values it was given. |
| BatomsModel.SetAttributesFits | batoms.py:640-664 | Arrays of exactly nvert values for existing names are always accepted. |
| BatomsModel.SetAttributesRejects | batoms.py:660-662 | An existing non-string attribute given the wrong number of values is refused. |
| BatomsModel.Assoc | batoms.py:141-146 | `dict.update` with one pair adds the name, stores its value, and leaves other names' values alone. |
| BatomsModel.AssocDistinct | batoms.py:141-146 | Updating a dict keeps its names unique. |
| BatomsModel.DefaultAttributes | batoms.py:27-31 | A new mesh has the seven default attributes, one entry per vertex. `species` is a string and `show` a boolean. |
| BatomsModel.DefaultSpeciesProps | batoms.py:133-134 | Without species properties, there is one entry per label. |
| BatomsModel.DefaultSpeciesPropsNormalised | batoms.py:133-134 | Each default is `{label.split('_')[0]: 1.0}`, is already normalised, and has the prefix as main element unless the prefix is `'X'`. |
| BatomsModel.ScaleColumn | batoms.py:137-138 | A number is broadcast over natom entries. An array is used as given. |
| BatomsModel.PbcFlags | batoms.py:743-746 | A bool is stored for all three axes. Per-axis flags must be three. |
| BatomsModel.SetPbc | batoms.py:743-746 | Only the periodic flags change, and one bool holds on every axis. |
| BatomsModel.SetPbcUniform | batoms.py:743-746 | `pbc=True` is the same as `pbc=[True]*3`. |
| BatomsModel.KeyFrames | batoms.py:990-1012 | The frames are keyed over a mesh holding frame 0, failing iff some frame has another length. The keys read back are exactly the frames. |
| BatomsModel.InitialUpdates | batoms.py:141-146 | The attribute dict gains `species`, `species_index`, `scale` and `show` and keeps unique names. |
| BatomsModel.InitialUpdatesLookup | batoms.py:137-146 | Whatever the caller passed under those four names, the constructor's labels, numbers, broadcast scale and all-ones `show` win. |
| BatomsModel.Build | batoms.py:131-155 | Species properties default per label. The attribute arrays are the default arrays after the writes. The volume and cell are stored. The flags are stored as `pbc` normalises them, and flags it rejects make the constructor fail. With `movie` the keys are the frames. |
| BatomsModel.CreateAsWritten | batoms.py:123-155 | Counts atoms before a stack is reduced to frame 0. Its atoms are frame 0. It accepts a stack only when the frame count equals the atom count: otherwise `show` is given one entry per frame and the write fails. |
| BatomsModel.CreateAsWrittenAgrees | batoms.py:123-130 | For a single frame or the empty default, the as-written constructor equals the corrected one. |
| BatomsModel.Create | batoms.py:119-155 | A built structure is consistent. Its atoms are frame 0, and with `movie` its shape keys are the frames. |
| BatomsModel.InitialAttributes | batoms.py:137-147 | One label per atom and a scalar scale fit a fresh mesh: labels, scale and `show` 1 are written. |
| BatomsModel.CreateBroadcastsScale | batoms.py:119-155 | A trajectory whose frames all have one position per atom is built. Each atom gets its label, the scalar scale and `show` 1. |
| BatomsModel.NatomCountsFrames | batoms.py:123-139 | One atom in two frames is rejected as written and built once atoms are counted in frame 0. |
| BatomsModel.SetPositions | batoms.py:567-584 | The wrong length raises, and so does a mesh without shape keys. Otherwise the positions and the basis key change and nothing else does. |
| BatomsModel.SetPositionsUnchanged | batoms.py:567-584 | Writing back the positions the basis holds is a no-op. |
| BatomsModel.SetAttributeWithIndices | batoms.py:667-670 | An unknown name raises. Otherwise exactly the selected entries of the named array take the value, and every other array is unchanged. |
| BatomsModel.StyleMask | batoms.py:1508 | `model_style == k` holds for exactly the atoms whose style compares equal to k. |
| BatomsModel.DrawSpaceFilling | batoms.py:1507-1509 | A missing `model_style` or `scale` array raises, and otherwise the call succeeds. Only the `scale` array may change; every other array and field is kept. |
| BatomsModel.DrawSpaceFillingEffect | batoms.py:1507-1509 | For any `scale` argument (default 1.0), atoms of style 0 get that scale and every other atom keeps its own. |
| BatomsModel.DrawBallAndStick | batoms.py:1511-1514 | A missing `model_style` or `scale` array raises, and otherwise the call succeeds. Only the `scale` array may change; every other array and field is kept. |
| BatomsModel.DrawBallAndStickEffect | batoms.py:1511-1514 | For any `scale` argument (default 0.4), atoms of style 1 get that scale and every other atom keeps its own. |
| BatomsModel.DrawWireframe | batoms.py:1535-1538 | A missing `model_style`, `show` or `scale` array raises, in that order, and otherwise the call succeeds. Only `show` and `scale` may change. |
| BatomsModel.DrawWireframeEffect | batoms.py:1535-1538 | Atoms of style 3 get `show` 0 and scale 0.0001, other atoms are untouched, and styles are kept. |
| BatomsModel.Replace | batoms.py:1186-1212 | An unknown species is registered, by default as `{species.split('_1')[0]: 1.0}`. `species` and `species_index` change exactly at the selected atoms, and nothing else changes. It succeeds whenever both arrays exist and the selection is valid. |
| BatomsModel.TileAttributes | batoms.py:1066-1068 | Every attribute array is tiled M times and keeps its type. |
| BatomsModel.TileAttributesAt | batoms.py:1066-1068 | Entry j of a tiled array is entry j mod n of the original. |
| BatomsModel.WriteAll | batoms.py:1078-1079 | Writing all arrays back succeeds iff each fits the new vertex count. |
| BatomsModel.Repeat | batoms.py:1046-1096 | A refused lattice gives UndefinedLattice. On success old atoms stay first, the attribute names are kept, and every array has one entry per atom. The number of shape keys is kept. Only the positions, the keys and the attribute arrays change: species, cell, periodic flags and volume are untouched. |
| BatomsModel.RepeatTilesAttributes | batoms.py:1046-1096 | With counts ≥ 1 on a consistent structure, the repeat succeeds and stays consistent. The atoms are the lattice repeat, and new atom j carries every attribute of old atom j mod n. The basis key gains the new atoms. Every later frame key is that frame's own lattice repeat. |
| BatomsModel.Delete | batoms.py:913-948 | An empty list raises, and so does an out-of-range index. The survivors keep their order in positions, every attribute array and every shape key. The object goes iff no atom remains. |

## Left out

- Blender itself is not modelled. Objects, meshes, collections, geometry nodes, materials, the instancer, the camera and the renderer are host I/O, so the model has only the resulting record.
- The face angles of `assign_materials` are an input. Their `arctan2` computation from face normals is floating point.
- The placement transform (`local2global`, `obj.location`) is the identity. `batoms.tools` is not part of this model.
- `string2Number` is the parameter `code`, because `batoms.tools` is not part of this model.
- Rounding is not modelled. Occupancies read back with `round(..., 3)`, and positions, scales and volumes are reals.
- The lattice repeat of the cell (`self.cell.repeat(m)`) belongs to the `Bcell` class, which is not part of this model.
- Species properties beyond elements (radius, colour, `get_default_species_data`), bonds, polyhedra, `draw_polyhedra`, selections and the isosurface, plane and surface settings are not modelled.
- `extend`, `copy` and the reload branches of the constructors (an empty species or label with an existing object) are not modelled. They join or copy host objects.
- Two branches are dead code and are not modelled: the dict branch of `set_scale`, and the `int` branch of `delete`, which `index[0]` makes unreachable.
- BatomModel.Create: requires a non-empty species label. The empty label selects the reload branch, which is not modelled.
- The periodic flags given per axis must be three. The host property's length check is modelled as `LengthMismatch`.
- New vertices added by a repeat are assumed to carry their own coordinates in the basis shape key.
- Multiplicities are natural numbers. Negative counts, which numpy would turn into empty tiles, are not modelled.
- `set_attribute_with_indices` is modelled with one value for all selected entries. Per-entry value arrays are not modelled.
- Attribute values are not coerced to the attribute's type on write. A float written into an int attribute keeps its value.
- An exception leaves the host scene partly updated. For example, `replace` registers a new species before an index error. The model returns `Err` with no state.
- The caller's `attributes` dict, which `Batoms.__init__` mutates in place, is not part of the result.
- BatomsModel.Repeat: leaves the cell unchanged, because `Bcell.repeat` is not part of this model.
- BatomsModel.Repeat: moves the frames after the basis key by the same lattice vectors as the positions. This assumes `self.cell.repeat(m)` does not change, in place, the vectors that the local `cell` still refers to. `Bcell` is not part of this model.
- BatomsModel.Delete: assumes `self.instancer` is provided by the base class, which is not part of this model. Deleting every atom is modelled as removing the object, not as a possible `AttributeError`.
- Strings read back from STRING attributes are not cut to 20 characters. `get_attributes` reads them into a numpy `U20` array, so `set_attribute_with_indices`, `replace` and `repeat` would truncate longer labels. The model keeps them whole.
- Return values are not modelled. `__imul__` has no `return self`, so `b *= m` rebinds `b` to `None`, and `repeat` returns `None`. The model gives the repeated structure as the new state.
- BatomsModel.SetAttributeWithIndices: requires every attribute array to have one entry per vertex, which the mesh guarantees.
- BatomsModel.Replace: requires every attribute array to have one entry per vertex, which the mesh guarantees.
- BatomsModel.DrawSpaceFilling: requires every attribute array to have one entry per vertex, which the mesh guarantees. Its `scale` argument is a real number, with the source default as the constant `SpaceFillingScale` (1.0).
- BatomsModel.DrawBallAndStick: requires every attribute array to have one entry per vertex, which the mesh guarantees. Its `scale` argument is a real number, with the source default as the constant `BallAndStickScale` (0.4). The bond drawing that follows (`draw_bonds`) is not modelled.
- BatomsModel.DrawWireframe: requires every attribute array to have one entry per vertex, which the mesh guarantees.
- `replace` takes the default element from `species.split('_1')[0]`. This differs from the constructor's `split('_')` and is modelled as written.

## Findings

| source | as written | input that shows it | evidently intended | confidence | as-written member | corrected member |
|---|---|---|---|---|---|---|
| batoms.py:123-139 | `natom = len(positions)` is taken before a 3-D stack is reduced to frame 0, so `scale` and `show` get one entry per frame | species `["H"]`, positions `[[p], [p]]` (two frames of one atom), `movie=True` | one `scale` and `show` entry per atom of frame 0 | not executed | BatomsModel.CreateAsWritten | BatomsModel.Create |
