/**
 * Cylinder picking: `CylinderPicker` of chemlab/graphics/pickers.py.
 *
 * Each cylinder is a segment with a radius. The picker wraps every segment in
 * a bounding sphere, runs the sphere picker on those as a broad phase, and
 * then, for each candidate in broad-phase order, rotates the ray into the
 * cylinder's frame, drops the z components and solves the 2-D ray-circle
 * quadratic. A candidate with a non-negative discriminant is recorded with
 * the parameter `t = -b + sqrt(det) / (2a)`, exactly as the picker writes it.
 */
module CylinderPicking {
  import opened Geometry
  import opened Seqs
  import SpherePicking

  /** One row of `bounds`: the two end points of a cylinder's axis. */
  datatype Segment = Segment(start: Vec3, end: Vec3)

  /** A recorded hit: the cylinder's index and the parameter `t`. */
  type Hit = (nat, Float)

  /** The indices of the recorded hits. */
  function Firsts(s: seq<Hit>): (r: seq<nat>)
    ensures |r| == |s| && forall k :: 0 <= k < |s| ==> r[k] == s[k].0
  {
    seq(|s|, k requires 0 <= k < |s| => s[k].0)
  }

  /** The bounding sphere's radius for one segment, `0.5 * sqrt(|end - start|^2)`. */
  function HalfLength(seg: Segment, sqrt: real -> real): real {
    0.5 * sqrt(Norm2(Sub(seg.end, seg.start)))
  }

  /**
   * The bounding spheres of the constructor: centre `0.5 * (end + start)`
   * and radius `HalfLength`.
   */
  function BoundingSpheres(bounds: seq<Segment>, sqrt: real -> real): (sp: SpherePicking.SpherePicker)
    ensures sp.Valid() && |sp.positions| == |bounds|
    ensures forall i :: 0 <= i < |bounds| ==>
      Sub(sp.positions[i], bounds[i].start) == Sub(bounds[i].end, sp.positions[i])
  {
    SpherePicking.SpherePicker(
      seq(|bounds|, i requires 0 <= i < |bounds| => Scale(0.5, Add(bounds[i].end, bounds[i].start))),
      seq(|bounds|, i requires 0 <= i < |bounds| => HalfLength(bounds[i], sqrt)))
  }

  lemma HalfSquare(s: real)
    ensures Sq(0.5 * s) == Sq(s) / 4.0
  {
  }

  /** Half the length of a segment is a non-negative number whose square is a quarter of the squared length. */
  lemma HalfLengthSquared(seg: Segment, sqrt: real -> real)
    requires IsSqrt(sqrt)
    ensures 0.0 <= HalfLength(seg, sqrt)
    ensures Sq(HalfLength(seg, sqrt)) == Norm2(Sub(seg.end, seg.start)) / 4.0
  {
    var n := Norm2(Sub(seg.end, seg.start));
    Norm2NonNegative(Sub(seg.end, seg.start));
    HalfSquare(sqrt(n));
  }

  /** Each bounding sphere's radius is half the segment's length. */
  lemma BoundingRadius(bounds: seq<Segment>, sqrt: real -> real, i: nat)
    requires IsSqrt(sqrt) && i < |bounds|
    ensures 0.0 <= BoundingSpheres(bounds, sqrt).radii[i]
    ensures Sq(BoundingSpheres(bounds, sqrt).radii[i]) == Norm2(Sub(bounds[i].end, bounds[i].start)) / 4.0
  {
    HalfLengthSquared(bounds[i], sqrt);
    assert BoundingSpheres(bounds, sqrt).radii[i] == HalfLength(bounds[i], sqrt);
  }

  /*
   * The 2-D ray-circle test on the local, z-zeroed origin `o` and direction
   * `d` against a circle of radius `r` centred on the axis.
   */

  function CircleA(d: Vec3): real { Dot(d, d) }

  function CircleB(o: Vec3, d: Vec3): real { 2.0 * Dot(o, d) }

  function CircleC(o: Vec3, r: real): real { Dot(o, o) - r * r }

  /** `b**2 - 4*a*c`. */
  function CircleDet(o: Vec3, d: Vec3, r: real): real
  {
    Sq(CircleB(o, d)) - 4.0 * CircleA(d) * CircleC(o, r)
  }

  /**
   * `-b + sqrt(det)/(2.0*a)`. When `a` is zero the projected direction is
   * zero, so `b` and `det` are zero too (`DegenerateCircle`) and numpy
   * computes 0/0, which is NaN.
   */
  function CircleParam(o: Vec3, d: Vec3, r: real, sqrt: real -> real): Float
  {
    var a := CircleA(d);
    if a == 0.0 then NaN
    else Finite(-CircleB(o, d) + sqrt(CircleDet(o, d, r)) / (2.0 * a))
  }

  lemma DotSelfZero(d: Vec3)
    requires Dot(d, d) == 0.0
    ensures d == Zero
  {
    assert Norm2(d) == Dot(d, d);
    Norm2NonNegative(d);
  }

  lemma CircleAtZero(o: Vec3, r: real)
    ensures CircleB(o, Zero) == 0.0 && CircleDet(o, Zero, r) == 0.0
  {
  }

  /** A zero quadratic coefficient forces the other two terms of the test to vanish. */
  lemma DegenerateCircle(o: Vec3, d: Vec3, r: real)
    requires CircleA(d) == 0.0
    ensures d == Zero && CircleB(o, d) == 0.0 && CircleDet(o, d, r) == 0.0
  {
    DotSelfZero(d);
    CircleAtZero(o, r);
  }

  /** The rotation and end-point independent part: the ray in the cylinder's frame, z dropped. */
  function Flatten(v: Vec3): (w: Vec3)
    ensures w.x == v.x && w.y == v.y && w.z == 0.0
  {
    v.(z := 0.0)
  }

  /** Rotating `d` by `m` lands it on the z axis. */
  ghost predicate AlignsWithZ(m: Mat3, d: Vec3) {
    MulVec(m, d).x == 0.0 && MulVec(m, d).y == 0.0
  }

  lemma MulVecScale(m: Mat3, k: real, v: Vec3)
    ensures MulVec(m, Scale(k, v)) == Scale(k, MulVec(m, v))
  {
    MulVecLinear(m, Zero, k, v);
    assert Add(Zero, Scale(k, v)) == Scale(k, v);
  }

  class CylinderPicker {
    const bounds: seq<Segment>
    const radii: seq<real>
    const directions: seq<Vec3>
    const origins: seq<Vec3>
    const boundingSphere: SpherePicking.SpherePicker

    ghost predicate Valid() {
      |radii| == |bounds| && |directions| == |bounds| && |origins| == |bounds| &&
      boundingSphere.Valid() && |boundingSphere.positions| == |bounds|
    }

    /**
     * `CylinderPicker.__init__`. The constructor rebinds its local `radii`
     * to the bounding radii only after storing the cylinder radii, so
     * `this.radii` keeps the cylinder radii.
     */
    constructor (bounds: seq<Segment>, radii: seq<real>, sqrt: real -> real)
      requires |radii| == |bounds|
      ensures Valid()
      ensures this.bounds == bounds && this.radii == radii
      ensures forall i :: 0 <= i < |bounds| ==>
        origins[i] == bounds[i].start && Add(origins[i], directions[i]) == bounds[i].end
      ensures boundingSphere == BoundingSpheres(bounds, sqrt)
    {
      this.bounds := bounds;
      this.radii := radii;
      directions := seq(|bounds|, i requires 0 <= i < |bounds| => Sub(bounds[i].end, bounds[i].start));
      origins := seq(|bounds|, i requires 0 <= i < |bounds| => bounds[i].start);
      boundingSphere := BoundingSpheres(bounds, sqrt);
    }

    /** `origin_p` after the in-place write of its z component. */
    function LocalOrigin(i: nat, ray: SpherePicking.Ray, rotation: Vec3 -> Mat3): Vec3
      requires Valid() && i < |bounds|
    {
      Flatten(MulVec(rotation(directions[i]), Sub(ray.origin, origins[i])))
    }

    /** `direction_p` after the in-place write of its z component. */
    function LocalDirection(i: nat, ray: SpherePicking.Ray, rotation: Vec3 -> Mat3): Vec3
      requires Valid() && i < |bounds|
    {
      Flatten(MulVec(rotation(directions[i]), ray.direction))
    }

    /** Candidate `i` passes the circle test. */
    predicate Kept(i: nat, ray: SpherePicking.Ray, rotation: Vec3 -> Mat3)
      requires Valid() && i < |bounds|
    {
      0.0 <= CircleDet(LocalOrigin(i, ray, rotation), LocalDirection(i, ray, rotation), radii[i])
    }

    /** The `t` recorded for candidate `i`. */
    function Param(i: nat, ray: SpherePicking.Ray, sqrt: real -> real, rotation: Vec3 -> Mat3): Float
      requires Valid() && i < |bounds|
    {
      CircleParam(LocalOrigin(i, ray, rotation), LocalDirection(i, ray, rotation), radii[i], sqrt)
    }

    /** Whether each cylinder passes the circle test, by index. */
    function Keeps(ray: SpherePicking.Ray, rotation: Vec3 -> Mat3): (r: seq<bool>)
      requires Valid()
      ensures |r| == |bounds| && forall i :: 0 <= i < |r| ==> r[i] == Kept(i, ray, rotation)
    {
      seq(|bounds|, i requires 0 <= i < |bounds| => Kept(i, ray, rotation))
    }

    /** The `t` each cylinder would be recorded with, by index. */
    function Params(ray: SpherePicking.Ray, sqrt: real -> real, rotation: Vec3 -> Mat3): (r: seq<Float>)
      requires Valid()
      ensures |r| == |bounds| && forall i :: 0 <= i < |r| ==> r[i] == Param(i, ray, sqrt, rotation)
    {
      seq(|bounds|, i requires 0 <= i < |bounds| => Param(i, ray, sqrt, rotation))
    }

    /** The narrow phase over the candidates `cands`, in candidate order. */
    function NarrowPhase(cands: seq<nat>, ray: SpherePicking.Ray, sqrt: real -> real, rotation: Vec3 -> Mat3): seq<Hit>
      requires Valid() && forall k :: 0 <= k < |cands| ==> cands[k] < |bounds|
    {
      Select(cands, Keeps(ray, rotation), Params(ray, sqrt, rotation))
    }

    /**
     * `CylinderPicker.pick` on a given ray. `rotation(d)` stands for the
     * upper-left block of `rotation_matrix(angle_between_vectors(d, z), cross(d, z))`.
     */
    method Pick(ray: SpherePicking.Ray, sqrt: real -> real, rotation: Vec3 -> Mat3) returns (intersections: seq<Hit>)
      requires Valid()
      ensures forall k :: 0 <= k < |boundingSphere.Pick(ray, sqrt)| ==> boundingSphere.Pick(ray, sqrt)[k] < |bounds|
      ensures intersections == NarrowPhase(boundingSphere.Pick(ray, sqrt), ray, sqrt, rotation)
    {
      var sphIntersections := boundingSphere.Pick(ray, sqrt);
      SpherePicking.PickNoDuplicates(boundingSphere, ray, sqrt);
      intersections := [];
      var k := 0;
      while k < |sphIntersections|
        invariant 0 <= k <= |sphIntersections|
        invariant intersections == NarrowPhase(sphIntersections[..k], ray, sqrt, rotation)
      {
        var i := sphIntersections[k];
        var m := rotation(directions[i]);
        var originP := MulVec(m, Sub(ray.origin, origins[i]));
        var directionP := MulVec(m, ray.direction);
        originP := originP.(z := 0.0);
        directionP := directionP.(z := 0.0);
        var cylRadius := radii[i];
        var det := CircleDet(originP, directionP, cylRadius);
        NarrowStep(sphIntersections, k, ray, sqrt, rotation);
        LocalTest(i, ray, sqrt, rotation);
        if det >= 0.0 {
          var t := CircleParam(originP, directionP, cylRadius, sqrt);
          intersections := intersections + [(i, t)];
        }
        k := k + 1;
      }
      assert sphIntersections[..k] == sphIntersections;
    }

    /** The circle test and parameter of candidate `i`, spelled out in the steps the picker takes. */
    lemma LocalTest(i: nat, ray: SpherePicking.Ray, sqrt: real -> real, rotation: Vec3 -> Mat3)
      requires Valid() && i < |bounds|
      ensures Kept(i, ray, rotation) <==> 0.0 <= CircleDet(
        MulVec(rotation(directions[i]), Sub(ray.origin, origins[i])).(z := 0.0),
        MulVec(rotation(directions[i]), ray.direction).(z := 0.0), radii[i])
      ensures Param(i, ray, sqrt, rotation) == CircleParam(
        MulVec(rotation(directions[i]), Sub(ray.origin, origins[i])).(z := 0.0),
        MulVec(rotation(directions[i]), ray.direction).(z := 0.0), radii[i], sqrt)
    {
    }

    /** One more candidate is appended to the narrow phase exactly when it passes the circle test. */
    lemma NarrowStep(cands: seq<nat>, k: nat, ray: SpherePicking.Ray, sqrt: real -> real, rotation: Vec3 -> Mat3)
      requires Valid() && k < |cands| && forall j :: 0 <= j < |cands| ==> cands[j] < |bounds|
      ensures NarrowPhase(cands[..k + 1], ray, sqrt, rotation) ==
        if Kept(cands[k], ray, rotation)
        then NarrowPhase(cands[..k], ray, sqrt, rotation) + [(cands[k], Param(cands[k], ray, sqrt, rotation))]
        else NarrowPhase(cands[..k], ray, sqrt, rotation)
    {
      assert cands[..k + 1] == cands[..k] + [cands[k]];
      SelectSnoc(cands[..k], cands[k], Keeps(ray, rotation), Params(ray, sqrt, rotation));
    }
  }

  /**
   * The selection part of the narrow phase, over per-cylinder arrays:
   * `keep[i]` is cylinder i's circle test and `param[i]` its `t`.
   */
  function Select(cands: seq<nat>, keep: seq<bool>, param: seq<Float>): seq<Hit>
    requires |keep| == |param| && forall k :: 0 <= k < |cands| ==> cands[k] < |keep|
  {
    if cands == [] then []
    else
      var i := cands[|cands| - 1];
      var rest := Select(cands[..|cands| - 1], keep, param);
      if keep[i] then rest + [(i, param[i])] else rest
  }

  lemma SelectSnoc(cands: seq<nat>, i: nat, keep: seq<bool>, param: seq<Float>)
    requires |keep| == |param| && i < |keep| && forall k :: 0 <= k < |cands| ==> cands[k] < |keep|
    ensures Select(cands + [i], keep, param) ==
      if keep[i] then Select(cands, keep, param) + [(i, param[i])] else Select(cands, keep, param)
  {
    assert (cands + [i])[..|cands|] == cands;
  }

  /** Every selected entry is a kept candidate, paired with its own parameter. */
  lemma {:induction false} SelectEntries(cands: seq<nat>, keep: seq<bool>, param: seq<Float>)
    requires |keep| == |param| && forall k :: 0 <= k < |cands| ==> cands[k] < |keep|
    ensures forall k :: 0 <= k < |Select(cands, keep, param)| ==>
      Select(cands, keep, param)[k].0 in cands && keep[Select(cands, keep, param)[k].0] &&
      Select(cands, keep, param)[k].1 == param[Select(cands, keep, param)[k].0]
  {
    if cands != [] {
      var front := cands[..|cands| - 1];
      SelectEntries(front, keep, param);
      var rest := Select(front, keep, param);
      assert forall k :: 0 <= k < |rest| ==> rest[k].0 in front;
    }
  }

  /** The selected indices keep the candidates' order. */
  lemma {:induction false} SelectSubseq(cands: seq<nat>, keep: seq<bool>, param: seq<Float>)
    requires |keep| == |param| && forall k :: 0 <= k < |cands| ==> cands[k] < |keep|
    ensures IsSubseq(Firsts(Select(cands, keep, param)), cands)
  {
    if cands != [] {
      var front, i := cands[..|cands| - 1], cands[|cands| - 1];
      SelectSubseq(front, keep, param);
      var rest := Firsts(Select(front, keep, param));
      var r := Firsts(Select(cands, keep, param));
      if keep[i] {
        assert r[..|r| - 1] == rest;
      } else {
        assert r == rest;
        assert cands == front + [i];
        SubseqSnoc(rest, front, i);
      }
    }
  }

  /** Every kept candidate is selected. */
  lemma {:induction false} SelectComplete(cands: seq<nat>, keep: seq<bool>, param: seq<Float>)
    requires |keep| == |param| && forall k :: 0 <= k < |cands| ==> cands[k] < |keep|
    ensures forall i :: i in cands && keep[i] ==> i in Firsts(Select(cands, keep, param))
  {
    if cands != [] {
      var front, i := cands[..|cands| - 1], cands[|cands| - 1];
      SelectComplete(front, keep, param);
      var rest := Firsts(Select(front, keep, param));
      var r := Firsts(Select(cands, keep, param));
      assert cands == front + [i];
      if keep[i] {
        assert r == rest + [i];
      } else {
        assert r == rest;
      }
    }
  }

  /**
   * Selecting from candidates without duplicates: the selected indices are
   * exactly the kept candidates, in candidate order, each once, each with
   * its own parameter.
   */
  lemma SelectResult(cands: seq<nat>, keep: seq<bool>, param: seq<Float>)
    requires |keep| == |param| && forall k :: 0 <= k < |cands| ==> cands[k] < |keep|
    requires NoDup(cands)
    ensures var r := Select(cands, keep, param);
      IsSubseq(Firsts(r), cands) && NoDup(Firsts(r)) &&
      (forall i: nat :: i in Firsts(r) <==> i in cands && keep[i]) &&
      (forall k :: 0 <= k < |r| ==> r[k].0 < |param| && r[k].1 == param[r[k].0])
  {
    SelectSubseq(cands, keep, param);
    SelectComplete(cands, keep, param);
    SelectEntries(cands, keep, param);
    var r := Select(cands, keep, param);
    SubseqNoDup(Firsts(r), cands);
    forall i: nat | i in Firsts(r) ensures i in cands && keep[i] {
      var k :| 0 <= k < |Firsts(r)| && Firsts(r)[k] == i;
      assert r[k].0 == i;
    }
  }

  /**
   * The result of `pick`: its indices are bounding-sphere hits, in
   * broad-phase order, each at most once; a bounding-sphere hit is recorded
   * exactly when it passes the circle test, with its `t`.
   */
  lemma PickResult(cp: CylinderPicker, ray: SpherePicking.Ray, sqrt: real -> real, rotation: Vec3 -> Mat3)
    requires cp.Valid()
    ensures var broad, keep, param := cp.boundingSphere.Pick(ray, sqrt), cp.Keeps(ray, rotation), cp.Params(ray, sqrt, rotation);
      (forall k :: 0 <= k < |broad| ==> broad[k] < |cp.bounds|) &&
      var r := cp.NarrowPhase(broad, ray, sqrt, rotation);
      IsSubseq(Firsts(r), broad) && NoDup(Firsts(r)) &&
      (forall i: nat :: i in Firsts(r) <==> i in broad && keep[i]) &&
      (forall k :: 0 <= k < |r| ==> r[k].0 < |param| && r[k].1 == param[r[k].0])
  {
    SpherePicking.PickNoDuplicates(cp.boundingSphere, ray, sqrt);
    SelectResult(cp.boundingSphere.Pick(ray, sqrt), cp.Keeps(ray, rotation), cp.Params(ray, sqrt, rotation));
  }

  /** Nothing is recorded when the broad phase reports nothing. */
  lemma PickEmpty(cp: CylinderPicker, ray: SpherePicking.Ray, sqrt: real -> real, rotation: Vec3 -> Mat3)
    requires cp.Valid()
    requires forall i: nat :: i < |cp.bounds| ==> !cp.boundingSphere.Hit(ray, sqrt, i)
    ensures cp.boundingSphere.Pick(ray, sqrt) == []
    ensures cp.NarrowPhase(cp.boundingSphere.Pick(ray, sqrt), ray, sqrt, rotation) == []
  {
    SpherePicking.PickEmpty(cp.boundingSphere, ray, sqrt);
  }

  /**
   * A ray parallel to a cylinder's axis, where the rotation takes the axis to
   * z, projects to a zero direction: the candidate is kept whatever its
   * radius, and its `t` is NaN.
   */
  lemma ParallelRayKept(cp: CylinderPicker, i: nat, ray: SpherePicking.Ray, sqrt: real -> real,
                        rotation: Vec3 -> Mat3, mu: real)
    requires cp.Valid() && i < |cp.bounds|
    requires AlignsWithZ(rotation(cp.directions[i]), cp.directions[i])
    requires ray.direction == Scale(mu, cp.directions[i])
    ensures cp.LocalDirection(i, ray, rotation) == Zero
    ensures cp.Kept(i, ray, rotation) && cp.Param(i, ray, sqrt, rotation) == NaN
  {
    var m := rotation(cp.directions[i]);
    MulVecScale(m, mu, cp.directions[i]);
    var d := cp.LocalDirection(i, ray, rotation);
    assert d == Zero;
    DegenerateCircle(cp.LocalOrigin(i, ray, rotation), d, cp.radii[i]);
  }

  /**
   * There is no end-cap test: sliding the ray's origin along the cylinder's
   * axis, by any amount, leaves the local ray and so the outcome unchanged.
   * A ray that passes the infinite cylinder far beyond the segment's ends is
   * kept as well as one that crosses the segment.
   */
  lemma NoCapTest(cp: CylinderPicker, i: nat, ray: SpherePicking.Ray, sqrt: real -> real,
                  rotation: Vec3 -> Mat3, s: real)
    requires cp.Valid() && i < |cp.bounds|
    requires AlignsWithZ(rotation(cp.directions[i]), cp.directions[i])
    ensures var slid := SpherePicking.Ray(Add(ray.origin, Scale(s, cp.directions[i])), ray.direction);
      cp.LocalOrigin(i, slid, rotation) == cp.LocalOrigin(i, ray, rotation) &&
      cp.LocalDirection(i, slid, rotation) == cp.LocalDirection(i, ray, rotation) &&
      (cp.Kept(i, slid, rotation) <==> cp.Kept(i, ray, rotation)) &&
      cp.Param(i, slid, sqrt, rotation) == cp.Param(i, ray, sqrt, rotation)
  {
    var m, d, o := rotation(cp.directions[i]), cp.directions[i], cp.origins[i];
    var slid := SpherePicking.Ray(Add(ray.origin, Scale(s, d)), ray.direction);
    assert Sub(slid.origin, o) == Add(Sub(ray.origin, o), Scale(s, d));
    MulVecLinear(m, Sub(ray.origin, o), s, d);
  }

  /** The square root of 4 is 2. */
  lemma SqrtFour(sqrt: real -> real)
    requires IsSqrt(sqrt)
    ensures sqrt(4.0) == 2.0
  {
    SqrtUnique(sqrt, 4.0, 2.0);
  }

  /** The value of the circle's quadratic `a t^2 + b t + c` at `t`. */
  function CircleAt(o: Vec3, d: Vec3, r: real, t: real): real {
    CircleA(d) * t * t + CircleB(o, d) * t + CircleC(o, r)
  }

  /** The example circle: a = 1, b = -10, c = 24, so det = 4, with roots 4 and 6 and not 11. */
  lemma ExampleCircle()
    ensures var o, d := Vec3(-5.0, 0.0, 0.0), Vec3(1.0, 0.0, 0.0);
      CircleA(d) == 1.0 && CircleB(o, d) == -10.0 && CircleDet(o, d, 1.0) == 4.0 &&
      CircleAt(o, d, 1.0, 4.0) == 0.0 && CircleAt(o, d, 1.0, 6.0) == 0.0 && CircleAt(o, d, 1.0, 11.0) != 0.0
  {
    var o, d := Vec3(-5.0, 0.0, 0.0), Vec3(1.0, 0.0, 0.0);
    assert CircleA(d) == 1.0;
    assert CircleB(o, d) == -10.0;
    assert CircleC(o, 1.0) == 24.0;
    assert Sq(-10.0) == 100.0;
  }

  /** With `sqrt(4) == 2`, the example circle records `10 + 2/2`. */
  lemma ExampleParam(sqrt: real -> real)
    requires sqrt(4.0) == 2.0
    ensures CircleParam(Vec3(-5.0, 0.0, 0.0), Vec3(1.0, 0.0, 0.0), 1.0, sqrt) == Finite(11.0)
  {
    var o, d := Vec3(-5.0, 0.0, 0.0), Vec3(1.0, 0.0, 0.0);
    var a, b, det := CircleA(d), CircleB(o, d), CircleDet(o, d, 1.0);
    assert a == 1.0;
    assert b == -10.0;
    assert det == 4.0;
    var s := sqrt(det);
    assert -b + s / (2.0 * a) == 11.0;
  }

  /**
   * The recorded `t` is not a root of the circle's quadratic in general:
   * a unit circle, local origin (-5, 0) and direction (1, 0) give a = 1,
   * b = -10, c = 24 and det = 4, whose roots are 4 and 6, while the picker
   * records 10 + 2/2 = 11.
   */
  lemma ParamAsWritten(sqrt: real -> real)
    requires IsSqrt(sqrt)
    ensures var o, d := Vec3(-5.0, 0.0, 0.0), Vec3(1.0, 0.0, 0.0);
      CircleDet(o, d, 1.0) == 4.0 && CircleParam(o, d, 1.0, sqrt) == Finite(11.0) &&
      CircleAt(o, d, 1.0, 4.0) == 0.0 && CircleAt(o, d, 1.0, 6.0) == 0.0 && CircleAt(o, d, 1.0, 11.0) != 0.0
  {
    SqrtFour(sqrt);
    ExampleCircle();
    ExampleParam(sqrt);
  }
}
