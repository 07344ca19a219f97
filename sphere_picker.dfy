/**
 * Sphere picking: `SpherePicker` of chemlab/graphics/pickers.py.
 *
 * For every sphere the picker forms the ray-sphere quadratic
 * t^2 + b t + c = 0 (a unit direction makes a = 1), whose roots are the ray
 * parameters (-b -/+ sqrt(det)) / 2 of the two intersections. Its "distance"
 * (b + sqrt(det)) / 2 is minus the parameter of the near intersection. The
 * picker keeps the spheres whose discriminant is non-negative and whose
 * distance is negative, that is, whose near intersection lies ahead of the
 * origin; it sorts the surviving `(distance, index)` tuples ascending and
 * returns their indices reversed, the nearest intersection first.
 */
module SpherePicking {
  import opened Geometry
  import opened Seqs

  /**
   * A pick ray in object space. The picker obtains it from the camera's
   * unprojection of a screen point and `unit_vector`; both are outside this
   * model, so the ray is an input.
   */
  datatype Ray = Ray(origin: Vec3, direction: Vec3)
  {
    /** The point `origin + t direction`. */
    function At(t: real): Vec3 { Add(origin, Scale(t, direction)) }
  }

  /** What the picker sorts: Python's tuple `(distance, index)`. */
  type Candidate = (real, nat)

  /** Python's strict order on `(distance, index)` tuples: by distance, then by index. */
  predicate Before(p: Candidate, q: Candidate) {
    p.0 < q.0 || (p.0 == q.0 && p.1 < q.1)
  }

  ghost predicate Ascending(s: seq<Candidate>) {
    forall k, l :: 0 <= k < l < |s| ==> Before(s[k], s[l])
  }

  ghost predicate Increasing(s: seq<nat>) {
    forall k, l :: 0 <= k < l < |s| ==> s[k] < s[l]
  }

  /** Inserts `c` into an ascending sequence. */
  function Insert(c: Candidate, s: seq<Candidate>): (r: seq<Candidate>)
    ensures multiset(r) == multiset(s) + multiset{c}
  {
    if s == [] || Before(c, s[0]) then [c] + s
    else
      assert s == [s[0]] + s[1..];
      [s[0]] + Insert(c, s[1..])
  }

  lemma {:induction false} InsertAscending(c: Candidate, s: seq<Candidate>)
    requires Ascending(s) && c !in s
    ensures Ascending(Insert(c, s))
  {
    if s != [] && !Before(c, s[0]) {
      var tail := Insert(c, s[1..]);
      InsertAscending(c, s[1..]);
      assert Before(s[0], c);
      forall k | 0 <= k < |tail| ensures Before(s[0], tail[k]) {
        assert tail[k] in multiset(s[1..]) + multiset{c};
      }
    }
  }

  /**
   * Python's `sorted` on candidate tuples. With no duplicate tuples the
   * ascending arrangement is unique, so stability does not matter here.
   */
  function Sort(s: seq<Candidate>): (r: seq<Candidate>)
    ensures multiset(r) == multiset(s)
  {
    if s == [] then []
    else
      assert s == [s[0]] + s[1..];
      Insert(s[0], Sort(s[1..]))
  }

  lemma {:induction false} SortAscending(s: seq<Candidate>)
    requires NoDup(s)
    ensures Ascending(Sort(s))
  {
    if s != [] {
      SortAscending(s[1..]);
      assert s[0] !in multiset(s[1..]);
      InsertAscending(s[0], Sort(s[1..]));
    }
  }

  /** The second components of the tuples: `zip(*...)`'s index part. */
  function Indices(s: seq<Candidate>): (r: seq<nat>)
    ensures |r| == |s| && forall k :: 0 <= k < |s| ==> r[k] == s[k].1
  {
    seq(|s|, k requires 0 <= k < |s| => s[k].1)
  }

  /*
   * The selection and ordering part of `pick`, over the vectorised arrays:
   * `det[i]` is `det_v[i]` and `dist[i]` is sphere i's (b + sqrt(det)) / 2.
   */

  /** `(det >= 0).nonzero()[0]` over the first `n` entries. */
  function NonNegative(det: seq<real>, n: nat): (r: seq<nat>)
    requires n <= |det|
    ensures forall k :: 0 <= k < |r| ==> r[k] < n && 0.0 <= det[r[k]]
    ensures forall i: nat :: i < n && 0.0 <= det[i] ==> i in r
    ensures Increasing(r)
  {
    if n == 0 then []
    else NonNegative(det, n - 1) + (if 0.0 <= det[n - 1] then [n - 1] else [])
  }

  /**
   * `zip(distances, intersections)` after `dist_mask`: for each index of
   * `idx` in turn, its distance and itself when the distance is negative.
   */
  function Survivors(dist: seq<real>, idx: seq<nat>): (r: seq<Candidate>)
    requires forall k :: 0 <= k < |idx| ==> idx[k] < |dist|
    ensures forall k :: 0 <= k < |r| ==> r[k].1 in idx && r[k] == (dist[r[k].1], r[k].1) && r[k].0 < 0.0
    ensures forall i :: i in idx && dist[i] < 0.0 ==> (dist[i], i) in r
  {
    if idx == [] then []
    else
      var i := idx[|idx| - 1];
      assert idx == idx[..|idx| - 1] + [i];
      var rest := Survivors(dist, idx[..|idx| - 1]);
      if dist[i] < 0.0 then rest + [(dist[i], i)] else rest
  }

  lemma {:induction false} SurvivorsIncreasing(dist: seq<real>, idx: seq<nat>)
    requires forall k :: 0 <= k < |idx| ==> idx[k] < |dist|
    requires Increasing(idx)
    ensures Increasing(Indices(Survivors(dist, idx)))
  {
    if idx != [] {
      var front, i := idx[..|idx| - 1], idx[|idx| - 1];
      var rest := Survivors(dist, front);
      SurvivorsIncreasing(dist, front);
      forall k | 0 <= k < |rest| ensures rest[k].1 < i {
        var j :| 0 <= j < |front| && front[j] == rest[k].1;
        assert idx[j] < idx[|idx| - 1];
      }
    }
  }

  /** `pick` from `det_v` and the distances: the sorted-and-reversed survivors. */
  function PickFrom(det: seq<real>, dist: seq<real>): seq<nat>
    requires |det| == |dist|
  {
    var intersections := Survivors(dist, NonNegative(det, |det|));
    if intersections != [] then Indices(Reverse(Sort(intersections))) else []
  }

  /** The picked indices are the reversal of the ascending arrangement of exactly the survivors. */
  lemma {:induction false} PickFromStructure(det: seq<real>, dist: seq<real>) returns (sorted: seq<Candidate>)
    requires |det| == |dist|
    ensures PickFrom(det, dist) == Indices(Reverse(sorted))
    ensures Ascending(sorted)
    ensures forall k :: 0 <= k < |sorted| ==>
      sorted[k].1 < |det| && 0.0 <= det[sorted[k].1] && sorted[k] == (dist[sorted[k].1], sorted[k].1) && sorted[k].0 < 0.0
    ensures forall i: nat :: i < |det| && 0.0 <= det[i] && dist[i] < 0.0 ==> (dist[i], i) in sorted
  {
    var idx := NonNegative(det, |det|);
    var kept := Survivors(dist, idx);
    sorted := Sort(kept);
    SurvivorsIncreasing(dist, idx);
    assert NoDup(kept) by {
      forall k, l | 0 <= k < l < |kept| ensures kept[k] != kept[l] {
        assert Indices(kept)[k] < Indices(kept)[l];
      }
    }
    SortAscending(kept);
    forall k | 0 <= k < |sorted|
      ensures sorted[k].1 < |det| && 0.0 <= det[sorted[k].1] && sorted[k] == (dist[sorted[k].1], sorted[k].1) && sorted[k].0 < 0.0
    {
      assert sorted[k] in multiset(kept);
      var j :| 0 <= j < |kept| && kept[j] == sorted[k];
      var p :| 0 <= p < |idx| && idx[p] == kept[j].1;
    }
    forall i: nat | i < |det| && 0.0 <= det[i] && dist[i] < 0.0
      ensures (dist[i], i) in sorted
    {
      assert (dist[i], i) in multiset(kept);
    }
    if kept == [] {
      assert sorted == [];
    }
  }

  /** An index is picked exactly when its discriminant is non-negative and its distance negative. */
  lemma PickFromMembers(det: seq<real>, dist: seq<real>)
    requires |det| == |dist|
    ensures forall i: nat :: i in PickFrom(det, dist) <==> i < |det| && 0.0 <= det[i] && dist[i] < 0.0
  {
    var sorted := PickFromStructure(det, dist);
    var r := PickFrom(det, dist);
    var rev := Reverse(sorted);
    forall i: nat ensures i in r <==> i < |det| && 0.0 <= det[i] && dist[i] < 0.0 {
      if i in r {
        var k :| 0 <= k < |r| && r[k] == i;
        assert rev[k] == sorted[|sorted| - 1 - k];
      }
      if i < |det| && 0.0 <= det[i] && dist[i] < 0.0 {
        var p :| 0 <= p < |sorted| && sorted[p] == (dist[i], i);
        var k := |sorted| - 1 - p;
        assert rev[k] == sorted[p];
        assert r[k] == i;
      }
    }
  }

  /** Reversing an ascending arrangement of `(dist[i], i)` tuples puts larger distances first. */
  lemma ReversedDescending(sorted: seq<Candidate>, dist: seq<real>)
    requires Ascending(sorted)
    requires forall k :: 0 <= k < |sorted| ==> sorted[k].1 < |dist| && sorted[k] == (dist[sorted[k].1], sorted[k].1)
    ensures var r := Indices(Reverse(sorted));
      forall k, l :: 0 <= k < l < |r| ==>
        r[k] < |dist| && r[l] < |dist| && (dist[r[k]] > dist[r[l]] || (dist[r[k]] == dist[r[l]] && r[k] > r[l]))
  {
    var rev := Reverse(sorted);
    var r := Indices(rev);
    var n := |sorted|;
    forall k, l | 0 <= k < l < |r|
      ensures r[k] < |dist| && r[l] < |dist| && (dist[r[k]] > dist[r[l]] || (dist[r[k]] == dist[r[l]] && r[k] > r[l]))
    {
      var a, b := sorted[n - 1 - k], sorted[n - 1 - l];
      assert rev[k] == a && rev[l] == b;
      assert Before(b, a);
    }
  }

  /** Distances never increase along `r`; equal distances come in descending index order. */
  ghost predicate NearestFirst(r: seq<nat>, dist: seq<real>) {
    forall k, l :: 0 <= k < l < |r| ==>
      r[k] < |dist| && r[l] < |dist| && (dist[r[k]] > dist[r[l]] || (dist[r[k]] == dist[r[l]] && r[k] > r[l]))
  }

  /** The picked indices come nearest first. */
  lemma PickFromOrder(det: seq<real>, dist: seq<real>)
    requires |det| == |dist|
    ensures NearestFirst(PickFrom(det, dist), dist)
  {
    var sorted := PickFromStructure(det, dist);
    ReversedDescending(sorted, dist);
  }

  /** Every picked index is in range and is picked once. */
  lemma PickFromNoDup(det: seq<real>, dist: seq<real>)
    requires |det| == |dist|
    ensures forall k :: 0 <= k < |PickFrom(det, dist)| ==> PickFrom(det, dist)[k] < |det|
    ensures NoDup(PickFrom(det, dist))
  {
    PickFromOrder(det, dist);
    PickFromMembers(det, dist);
    var r := PickFrom(det, dist);
    forall k | 0 <= k < |r| ensures r[k] < |det| {
      assert r[k] in r;
    }
    forall k, l | 0 <= k < l < |r| ensures r[k] != r[l] {
      assert dist[r[k]] > dist[r[l]] || r[k] > r[l];
    }
  }

  /** The spheres, as parallel sequences of centres and radii. */
  datatype SpherePicker = SpherePicker(positions: seq<Vec3>, radii: seq<real>) {

    ghost predicate Valid() {
      |positions| == |radii|
    }

    /** `b_v[i]`: 2 (origin - p_i) . direction. */
    function B(ray: Ray, i: nat): real
      requires i < |positions|
    {
      2.0 * Dot(Sub(ray.origin, positions[i]), ray.direction)
    }

    /** `c_v[i]`: |origin - p_i|^2 - r_i^2. */
    function C(ray: Ray, i: nat): real
      requires Valid() && i < |positions|
    {
      Norm2(Sub(ray.origin, positions[i])) - Sq(radii[i])
    }

    /** `det_v[i]`: b^2 - 4c (the quadratic's a is taken to be 1). */
    function Det(ray: Ray, i: nat): real
      requires Valid() && i < |positions|
    {
      Sq(B(ray, i)) - 4.0 * C(ray, i)
    }

    /**
     * The picker's distance (b + sqrt(det)) / 2: minus the ray parameter of
     * the near intersection (see `DistanceIsNearRoot`).
     */
    function Distance(ray: Ray, sqrt: real -> real, i: nat): real
      requires Valid() && i < |positions|
    {
      (B(ray, i) + sqrt(Det(ray, i))) / 2.0
    }

    /** Sphere `i` passes both masks of the picker. */
    predicate Hit(ray: Ray, sqrt: real -> real, i: nat)
      requires Valid() && i < |positions|
    {
      0.0 <= Det(ray, i) && Distance(ray, sqrt, i) < 0.0
    }

    function Dets(ray: Ray): (r: seq<real>)
      requires Valid()
      ensures |r| == |positions| && forall i :: 0 <= i < |r| ==> r[i] == Det(ray, i)
    {
      seq(|positions|, i requires 0 <= i < |positions| => Det(ray, i))
    }

    function Distances(ray: Ray, sqrt: real -> real): (r: seq<real>)
      requires Valid()
      ensures |r| == |positions| && forall i :: 0 <= i < |r| ==> r[i] == Distance(ray, sqrt, i)
    {
      seq(|positions|, i requires 0 <= i < |positions| => Distance(ray, sqrt, i))
    }

    /**
     * `SpherePicker.pick` on a given ray: the indices of the spheres hit, the
     * negative distance closest to zero, i.e. the nearest intersection, first.
     */
    function Pick(ray: Ray, sqrt: real -> real): seq<nat>
      requires Valid()
    {
      PickFrom(Dets(ray), Distances(ray, sqrt))
    }
  }

  /** A sphere is reported exactly when it passes both masks. */
  lemma PickMembers(sp: SpherePicker, ray: Ray, sqrt: real -> real)
    requires sp.Valid()
    ensures forall i: nat :: i in sp.Pick(ray, sqrt) <==> i < |sp.positions| && sp.Hit(ray, sqrt, i)
  {
    PickFromMembers(sp.Dets(ray), sp.Distances(ray, sqrt));
  }

  /**
   * Nearest first: distances never increase along the result, and equal
   * distances come in descending index order (ascending sort, then reversal).
   */
  lemma PickOrder(sp: SpherePicker, ray: Ray, sqrt: real -> real)
    requires sp.Valid()
    ensures NearestFirst(sp.Pick(ray, sqrt), sp.Distances(ray, sqrt))
  {
    PickFromOrder(sp.Dets(ray), sp.Distances(ray, sqrt));
  }

  /** Every reported index is a sphere, reported once. */
  lemma PickNoDuplicates(sp: SpherePicker, ray: Ray, sqrt: real -> real)
    requires sp.Valid()
    ensures forall k :: 0 <= k < |sp.Pick(ray, sqrt)| ==> sp.Pick(ray, sqrt)[k] < |sp.positions|
    ensures NoDup(sp.Pick(ray, sqrt))
  {
    PickFromNoDup(sp.Dets(ray), sp.Distances(ray, sqrt));
  }

  /** Nothing is reported when no sphere passes both masks, in particular when there are no spheres. */
  lemma PickEmpty(sp: SpherePicker, ray: Ray, sqrt: real -> real)
    requires sp.Valid()
    ensures sp.Pick(ray, sqrt) == [] <==> forall i: nat :: i < |sp.positions| ==> !sp.Hit(ray, sqrt, i)
    ensures |sp.positions| == 0 ==> sp.Pick(ray, sqrt) == []
  {
    PickMembers(sp, ray, sqrt);
    var r := sp.Pick(ray, sqrt);
    if r != [] {
      assert r[0] in r;
    }
  }

  /**
   * Over exact reals the picker's test "det >= 0 and b + sqrt(det) < 0" says
   * that both intersections lie ahead of the origin (both roots of
   * t^2 + b t + c are positive): the ray's line meets the sphere, the origin
   * lies outside it (c > 0) and the centre lies ahead of it (b < 0).
   */
  lemma {:induction false} HitTestEquivalence(b: real, c: real, sqrt: real -> real)
    requires IsSqrt(sqrt)
    ensures var det := Sq(b) - 4.0 * c;
      (0.0 <= det && (b + sqrt(det)) / 2.0 < 0.0) <==> (0.0 <= det && b < 0.0 && 0.0 < c)
  {
    var det := Sq(b) - 4.0 * c;
    if 0.0 <= det {
      var s := sqrt(det);
      assert 0.0 <= s && Sq(s) == det;
      assert Sq(-b) == Sq(b) by {
        calc {
          Sq(-b);
          (-b) * (-b);
          b * b;
        }
      }
      if (b + s) / 2.0 < 0.0 {
        SquareLess(s, -b);
      }
      if b < 0.0 && 0.0 < c {
        if -b < s {
          SquareLess(-b, s);
        }
      }
    }
  }

  /**
   * The picker's distance is minus the near root: with s = sqrt(det), the
   * parameter t = (-b - s) / 2 solves t^2 + b t + c = 0, it is the smaller of
   * the two roots, and the distance (b + s) / 2 is -t.
   */
  lemma DistanceIsNearRoot(b: real, c: real, sqrt: real -> real)
    requires IsSqrt(sqrt) && 0.0 <= Sq(b) - 4.0 * c
    ensures var s := sqrt(Sq(b) - 4.0 * c); var t := (-b - s) / 2.0;
      (b + s) / 2.0 == -t && Sq(t) + b * t + c == 0.0 && t <= (-b + s) / 2.0
  {
    var s := sqrt(Sq(b) - 4.0 * c);
    assert Sq(s) == Sq(b) - 4.0 * c;
  }

  /** |w + t d|^2 expanded, for a unit direction d. */
  lemma NormAlongRay(w: Vec3, d: Vec3, t: real)
    requires Norm2(d) == 1.0
    ensures Norm2(Add(w, Scale(t, d))) == Sq(t) + t * (2.0 * Dot(w, d)) + Norm2(w)
  {
    assert Sq(t) * Norm2(d) == Sq(t);
  }

  /**
   * For a unit direction, minus the picker's distance is the ray parameter of
   * the near intersection with sphere `i`: the point `origin + t direction`
   * lies on the sphere, and no intersection has a smaller parameter.
   */
  lemma NearIntersection(sp: SpherePicker, ray: Ray, sqrt: real -> real, i: nat)
    requires sp.Valid() && i < |sp.positions| && IsSqrt(sqrt)
    requires Norm2(ray.direction) == 1.0 && 0.0 <= sp.Det(ray, i)
    ensures var t := -sp.Distance(ray, sqrt, i);
      Norm2(Sub(ray.At(t), sp.positions[i])) == Sq(sp.radii[i])
    ensures forall u: real ::
              Norm2(Sub(ray.At(u), sp.positions[i])) == Sq(sp.radii[i]) ==> -sp.Distance(ray, sqrt, i) <= u
  {
    var b, c := sp.B(ray, i), sp.C(ray, i);
    DistanceIsNearRoot(b, c, sqrt);
    SphereQuadratic(sp, ray, i, -sp.Distance(ray, sqrt, i));
    forall u: real | Norm2(Sub(ray.At(u), sp.positions[i])) == Sq(sp.radii[i])
      ensures -sp.Distance(ray, sqrt, i) <= u
    {
      SphereQuadratic(sp, ray, i, u);
      RootAtLeastNear(b, c, sqrt, u);
    }
  }

  /** Along a unit ray, the squared distance to sphere `i`'s surface is the picker's quadratic. */
  lemma SphereQuadratic(sp: SpherePicker, ray: Ray, i: nat, u: real)
    requires sp.Valid() && i < |sp.positions| && Norm2(ray.direction) == 1.0
    ensures Norm2(Sub(ray.At(u), sp.positions[i])) - Sq(sp.radii[i]) == Sq(u) + sp.B(ray, i) * u + sp.C(ray, i)
  {
    var w := Sub(ray.origin, sp.positions[i]);
    assert Sub(ray.At(u), sp.positions[i]) == Add(w, Scale(u, ray.direction));
    NormAlongRay(w, ray.direction, u);
  }

  /** Every root of t^2 + b t + c is at least the near root (-b - sqrt(det)) / 2. */
  lemma RootAtLeastNear(b: real, c: real, sqrt: real -> real, u: real)
    requires IsSqrt(sqrt) && 0.0 <= Sq(b) - 4.0 * c && Sq(u) + b * u + c == 0.0
    ensures (-b - sqrt(Sq(b) - 4.0 * c)) / 2.0 <= u
  {
    var s := sqrt(Sq(b) - 4.0 * c);
    // (2u + b)^2 = b^2 - 4c = s^2, so 2u + b is s or -s
    assert Sq(2.0 * u + b) == Sq(s);
    if 2.0 * u + b < -s {
      SquareLess(s, -(2.0 * u + b));
    }
  }

  /** The hit test of one sphere, in terms of its quadratic's coefficients. */
  lemma HitIffInFront(sp: SpherePicker, ray: Ray, sqrt: real -> real, i: nat)
    requires sp.Valid() && i < |sp.positions| && IsSqrt(sqrt)
    ensures sp.Hit(ray, sqrt, i) <==> 0.0 <= sp.Det(ray, i) && sp.B(ray, i) < 0.0 && 0.0 < sp.C(ray, i)
  {
    HitTestEquivalence(sp.B(ray, i), sp.C(ray, i), sqrt);
  }

  /** A sphere that contains the ray's origin (c <= 0) is never reported. */
  lemma OriginInsideNeverPicked(sp: SpherePicker, ray: Ray, sqrt: real -> real, i: nat)
    requires sp.Valid() && i < |sp.positions| && IsSqrt(sqrt)
    requires sp.C(ray, i) <= 0.0
    ensures i !in sp.Pick(ray, sqrt)
  {
    HitIffInFront(sp, ray, sqrt, i);
    PickMembers(sp, ray, sqrt);
  }
}
