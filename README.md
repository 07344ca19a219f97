# chemlab ray picking and GROMACS topology pieces, in Dafny

This project models two parts of chemlab.

**Ray picking** (`chemlab/graphics/pickers.py`):
- `SpherePicker.pick` forms the ray-sphere quadratic `t^2 + b t + c = 0` for every sphere; its roots are the ray parameters `(-b ∓ sqrt(det)) / 2` of the two intersections. The picker's distance `(b + sqrt(det)) / 2` is minus the parameter of the near intersection. It keeps the spheres whose discriminant is non-negative and whose distance is negative, so the near intersection lies ahead of the origin. It sorts the `(distance, index)` tuples ascending and returns the indices reversed, so the nearest intersection comes first.
- `CylinderPicker` wraps each segment in a bounding sphere and runs the sphere picker as a broad phase. For each candidate, in broad-phase order, it rotates the ray into the cylinder's frame, zeroes the z components and keeps the candidate when the 2-D ray-circle discriminant is non-negative. It records the candidate with `t = -b + sqrt(det)/(2a)`, exactly as written.

**Force-field and topology pieces** (`chemlab/md/potential.py`):
- the fixed-width `line` and `comment` writers, `atomic_no` and the Lorentz-Berthelot combining rule;
- the dictionary builders of `InterMolecular` and `IntraMolecular`, and the `pairs` property;
- two blocks of `to_top`: the de-duplicated `[ nonbondparams ]` rows, and the `[ system ]` molecule list, which is the run-length encoding of the molecule names. As written, `to_top` never reaches these blocks: its first `comment` call goes through `line`, which raises `NameError` (see "## Findings"). The models of the two blocks describe what `to_top` computes once `line` is fixed.

Arithmetic is over exact reals. Two things are parameters of the model:
- `sqrt: real -> real`, constrained by `Geometry.IsSqrt` where a property needs it;
- the per-cylinder rotation `rotation: Vec3 -> Mat3`, which stands for `rotation_matrix(angle_between_vectors(d, z), cross(d, z))[:3, :3]`.

The pick ray `(origin, direction)` is an input. Python exceptions become `Err` values of a `Result`. Dictionaries become sequences of `(key, value)` items in iteration order, and a key a dictionary may lack becomes an `Option` field.

Modules:
- `Geometry` (geometry.dfy): vectors, 3x3 matrices, the square root.
- `Seqs` (seqs.dfy): subsequences and duplicates.
- `SpherePicking` (sphere_picker.dfy).
- `CylinderPicking` (cylinder_picker.dfy).
- `Potential` (potential.dfy).
- `Topology` (topology.dfy).

Two behaviours of the code worth noting:
- **Ties between equal sphere distances.** The code sorts `(distance, index)` tuples, so ties are broken by index before the reversal. Equal distances therefore come back in descending index order.
- **A ray parallel to a cylinder's axis.** The projected direction is zero, so `a = b = det = 0`. The code records such a candidate as a hit, with `t = 0/0` (NaN), whatever the cylinder's radius.

## Model

| member | source | states |
|---|---|---|
| SpherePicking.PickMembers | chemlab/graphics/pickers.py:47-61 | a sphere index is returned exactly when its `det_v` is non-negative and its distance `(b + sqrt(det))/2` is negative |
| SpherePicking.PickOrder | chemlab/graphics/pickers.py:63-65 | nearest intersection first: along the result, distances never increase (the negative distance closest to zero first), and equal distances come in descending index order |
| SpherePicking.NearIntersection | chemlab/graphics/pickers.py:47-53 | for a unit direction, minus the distance is the ray parameter of the near intersection: that point of the ray lies on the sphere, and every point of the ray on the sphere has a parameter at least as large |
| SpherePicking.PickNoDuplicates | chemlab/graphics/pickers.py:51-65 | every returned index is a sphere, and no index is returned twice |
| SpherePicking.PickEmpty | chemlab/graphics/pickers.py:63-67 | the result is empty exactly when no sphere passes both masks; in particular it is empty with no spheres |
| SpherePicking.HitTestEquivalence | chemlab/graphics/pickers.py:47-59 | over the reals, `det >= 0 && (b + sqrt(det))/2 < 0` holds iff `det >= 0 && b < 0 && c > 0`, i.e. both intersections lie ahead of the origin |
| SpherePicking.HitIffInFront | chemlab/graphics/pickers.py:47-59 | one sphere's hit test is equivalent to `det >= 0`, `b < 0` and `c > 0` on its own quadratic |
| SpherePicking.OriginInsideNeverPicked | chemlab/graphics/pickers.py:48-61 | a sphere that contains the ray's origin (`c <= 0`) is never returned |
| SpherePicking.NonNegative | chemlab/graphics/pickers.py:51-52 | `(det >= 0).nonzero()[0]`: exactly the indices with a non-negative discriminant, in increasing order |
| SpherePicking.Survivors | chemlab/graphics/pickers.py:59-61 | the distance mask keeps exactly the candidates with a negative distance, each paired with its own distance |
| SpherePicking.Sort | chemlab/graphics/pickers.py:64 | `sorted` returns a permutation of its input |
| SpherePicking.SortAscending | chemlab/graphics/pickers.py:64 | without duplicate tuples, `sorted` returns them in strictly ascending tuple order |
| SpherePicking.PickFromStructure | chemlab/graphics/pickers.py:51-65 | the result is the reversal of an ascending arrangement of exactly the surviving `(distance, index)` tuples |
| SpherePicking.PickFromMembers | chemlab/graphics/pickers.py:51-61 | over the arrays `det_v` and distances, an index is returned iff its det is non-negative and its distance negative |
| SpherePicking.PickFromOrder | chemlab/graphics/pickers.py:64-65 | over the arrays, the sort-then-reverse puts larger distances first, and larger indices first among equal distances |
| SpherePicking.PickFromNoDup | chemlab/graphics/pickers.py:51-65 | over the arrays, every returned index is in range and none repeats |
| CylinderPicking.CylinderPicker.constructor | chemlab/graphics/pickers.py:71-81 | `origins[i]` is the segment's start, `origins[i] + directions[i]` its end, `radii` keeps the cylinder radii, and the bounding spheres are those of `BoundingSpheres` |
| CylinderPicking.BoundingSpheres | chemlab/graphics/pickers.py:77-81 | one bounding sphere per segment, centred at the segment's midpoint |
| CylinderPicking.BoundingRadius | chemlab/graphics/pickers.py:80 | each bounding radius is non-negative, and its square is a quarter of the segment's squared length |
| CylinderPicking.CylinderPicker.Pick | chemlab/graphics/pickers.py:96-134 | the loop over the broad-phase candidates records exactly the narrow-phase selection of those candidates, in their order |
| CylinderPicking.PickResult | chemlab/graphics/pickers.py:100-134 | the recorded indices are a subsequence of the broad-phase result, in its order and without repeats; a candidate is recorded iff it passes the circle test, with its own `t` |
| CylinderPicking.SelectResult | chemlab/graphics/pickers.py:106-132 | filtering distinct candidates keeps exactly the accepted ones, in candidate order, each once and with its own parameter |
| CylinderPicking.PickEmpty | chemlab/graphics/pickers.py:100-107 | when no bounding sphere is hit, the broad phase is empty and nothing is recorded |
| CylinderPicking.DegenerateCircle | chemlab/graphics/pickers.py:123-126 | when `a` is zero, the projected direction is zero and so `b` and `det` are zero too |
| CylinderPicking.ParallelRayKept | chemlab/graphics/pickers.py:118-131 | a ray parallel to the axis projects to a zero direction; the candidate is kept whatever the radius, and its `t` is NaN |
| CylinderPicking.NoCapTest | chemlab/graphics/pickers.py:114-128 | sliding the ray's origin along the axis by any amount changes neither the local ray, nor the test, nor `t`: there is no end-cap test |
| CylinderPicking.ParamAsWritten | chemlab/graphics/pickers.py:123-131 | the recorded `t` is not a root of the quadratic: for local origin (-5, 0), direction (1, 0) and a unit circle, det = 4 and `t` = 11, while 4 and 6 are roots and 11 is not |
| Potential.Line | chemlab/md/potential.py:17-24 | with `just` bound as intended, the result is a line iff `just` is "right" or "left"; otherwise it is `ValueError`; a line ends with "\n" |
| Potential.RJust | chemlab/md/potential.py:20 | `str.rjust`: the result is at least the requested width, never truncated; the input is at the end and spaces precede it |
| Potential.LJust | chemlab/md/potential.py:22 | `str.ljust`: the result is at least the requested width, never truncated; the input is at the start and spaces follow it |
| Potential.LineRoundTrip | chemlab/md/potential.py:17-22 | for arguments that fit a column, the line is 10 characters per argument plus the newline, and cutting it into columns and stripping the padding gives the arguments back |
| Potential.LineAsWrittenFails | chemlab/md/potential.py:17-19 | as written, every call raises `NameError` for `just`; even `line()`, which is meant to give "\n", fails |
| Potential.Comment | chemlab/md/potential.py:25-26 | a comment is ";" followed by the line of the same arguments |
| Potential.AtomicNo | chemlab/md/potential.py:11-12 | the result is the position of the first occurrence of the symbol, or `ValueError` exactly when the symbol is absent |
| Potential.CombineLorentzBerthelot | chemlab/md/potential.py:58-59 | the rule fails with `ValueError` exactly when the eps product is negative, as Python 2's fractional power does |
| Potential.CombineMeans | chemlab/md/potential.py:58-59 | the combined sigma is the arithmetic mean and lies between the two sigmas; the combined eps is the non-negative geometric mean |
| Potential.CombineSymmetric | chemlab/md/potential.py:58-59 | swapping the two particles does not change the result, error included |
| Potential.ParticlesFromDictResult | chemlab/md/potential.py:43-48 | building the particles succeeds iff every entry has all four keys; it then gives one particle per entry, in order, named by its key |
| Potential.InterMolecular.FromDict | chemlab/md/potential.py:43-48 | the loop appends exactly the particles of `ParticlesFromDict`, or stops with its first `KeyError` |
| Potential.CombinationsShape | chemlab/md/potential.py:53 | `combinations(range(n), 2)` yields n(n-1)/2 pairs, exactly the pairs `i < j < n`, in lexicographic order |
| Potential.PairsAlongResult | chemlab/md/potential.py:52-56 | the pair loop succeeds iff no index pair has eps values of opposite signs; it then holds one combined interaction per index pair, in order |
| Potential.InterMolecular.Pairs | chemlab/md/potential.py:50-56 | the loop over `combinations` produces exactly `PairsAlong` over the particles' index pairs |
| Potential.PairsResult | chemlab/md/potential.py:50-56 | without opposite-sign eps values, `pairs` yields n(n-1)/2 interactions; the k-th one joins the k-th pair `i < j`; with distinct names, no particle is paired with itself |
| Potential.BondsOfResult | chemlab/md/potential.py:101-103 | the bond list is built iff every bond has its three keys, one constraint per entry, in order |
| Potential.AnglesOfResult | chemlab/md/potential.py:107-109 | the angle list is built iff every angle has its three keys, one constraint per entry, in order |
| Potential.MoleculesFromDictResult | chemlab/md/potential.py:97-116 | one `MolecularConstraints` per entry, in order and named by its key; bonds and angles are the mapped lists, or empty when the key is missing; no dihedrals |
| Potential.IntraMolecular.FromDict | chemlab/md/potential.py:97-116 | the loop appends exactly the molecules of `MoleculesFromDict`, or stops with its first `KeyError` |
| Topology.NameToType | chemlab/md/potential.py:142-147 | every particle's name has a type, and only particles' names do |
| Topology.NameToTypeLastWins | chemlab/md/potential.py:144-147 | a name is mapped to the type of the last particle with that name |
| Topology.PairsAreTyped | chemlab/md/potential.py:144-155 | the pairs built from the particles never raise `KeyError` in the `name_to_type` lookup |
| Topology.DedupResult | chemlab/md/potential.py:153-162 | the loop fails iff some pair names an untyped particle; otherwise it writes the first occurrence of each row's type pair |
| Topology.NonbondParams | chemlab/md/potential.py:153-162 | the loop with the `pairs_added` set writes exactly `Dedup`'s rows, or stops with its `KeyError` |
| Topology.FirstOccurrencesUnique | chemlab/md/potential.py:153-157 | each ordered type pair is written at most once |
| Topology.FirstOccurrencesKeys | chemlab/md/potential.py:154-157 | every type pair of the input is written, and no other |
| Topology.FirstOccurrencesInOrder | chemlab/md/potential.py:154-162 | the written rows are input rows, in input order |
| Topology.FirstOccurrenceWins | chemlab/md/potential.py:156-162 | the row written for a type pair is its first input row, so that row's sigma and eps win |
| Topology.OrderedTypePairs | chemlab/md/potential.py:155-157 | pairs are ordered: with types A, B, A, the pairs (a, b), (a, c), (b, c) give the three rows (A, B), (A, A), (B, A) |
| Topology.MoleculeList | chemlab/md/potential.py:205-216 | the loop, with its `-1` sentinel and `pop(0)`, yields exactly the run-length encoding of the names; no names give an empty list |
| Topology.RunLengthExpand | chemlab/md/potential.py:205-216 | expanding the molecule list reproduces the names |
| Topology.RunLengthCanonical | chemlab/md/potential.py:205-216 | every count is at least 1, and neighbouring entries have different names |
| Topology.RunLengthOfExpand | chemlab/md/potential.py:205-216 | encoding the expansion of a list with those two properties gives the list back, so the encoding is the only such list |

## Left out

- The camera and `CylinderPicker._origin_ray` (chemlab/graphics/pickers.py:19-25, 83-94): `unproject` and `unit_vector` are not part of this model, and the pick ray is an input.
- `rotation_matrix` and `angle_between_vectors`: the rotation is a parameter. `ParallelRayKept` and `NoCapTest` require only that it takes the axis to z.
- `sqrt` is a parameter. Floating-point rounding, infinities and NaN propagation are not modelled; the one exception is the `0/0` NaN of a parallel ray.
- CylinderPicking.CylinderPicker.constructor: it requires as many radii as segments. The source accepts any lengths. With more radii than segments, the extra radii are never read. With fewer, `self.radii[i]` (chemlab/graphics/pickers.py:121) raises `IndexError` only when a candidate without a radius reaches the narrow phase. Neither case is modelled.
- SpherePicking.SpherePicker.Valid: it requires as many radii as positions. numpy broadcasting of a scalar or length-1 `radii` (chemlab/graphics/pickers.py:48) is not modelled.
- The `print 'Hit!'` statement, the unused `time` import and the commented-out loop of `pickers.py`: they have no effect on the result.
- `atomic_weight` and `ChemlabDB`: database I/O. `AtomicNo` takes the symbol list as a parameter.
- Potential.AtomicNo: the message of the `ValueError` is the symbol in single quotes followed by " is not in list". Python's `repr` would escape quotes and backslashes in the symbol, and that escaping is not modelled.
- Potential.CombineLorentzBerthelot: `/ 2` is modelled as real division. Python 2 floors when both sigmas are `int`.
- The rest of `to_top`: `System.subentity`, `Molecule`, `type_array`, the `[ defaults ]`, `[ atomtypes ]` and `[ moleculetype ]` sections, and the dihedral loop. These classes are not part of this model.
- The text of each `[ nonbondparams ]` and `[ system ]` row: a row is modelled as data. Its text would be `Line` of the row's fields, but `str` of a float is not modelled.
- Topology.MoleculeList: molecule names are strings, and the `-1` sentinel is `None`.
- `from_top` only reads a file, and the tests do file I/O through format handlers. Neither is modelled.

## Findings

| source | as written | input that shows it | evidently intended | confidence | as-written member | corrected member |
|---|---|---|---|---|---|---|
| chemlab/md/potential.py:18-19 | `kwargs.get("just", "right")` is discarded, and line 19 reads the unbound name `just` | `line()`, or any other call, raises `NameError` instead of returning "\n" | `just = kwargs.get("just", "right")` | high; not executed | Potential.LineAsWritten, Potential.LineAsWrittenFails | Potential.Line, Potential.LineRoundTrip |
