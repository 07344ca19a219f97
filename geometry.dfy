/**
 * Three-dimensional vectors over exact reals, the 3x3 matrices the cylinder
 * picker rotates by, and the square root the pickers use.
 *
 * The pickers work on numpy float64 arrays; this model uses `real` and so
 * leaves rounding, NaN propagation and infinities out, except for the
 * NaN that the cylinder picker computes as 0/0 (see `Float`).
 */
module Geometry {

  datatype Vec3 = Vec3(x: real, y: real, z: real)

  const Zero: Vec3 := Vec3(0.0, 0.0, 0.0)

  function Add(u: Vec3, v: Vec3): Vec3 { Vec3(u.x + v.x, u.y + v.y, u.z + v.z) }

  function Sub(u: Vec3, v: Vec3): Vec3 { Vec3(u.x - v.x, u.y - v.y, u.z - v.z) }

  function Scale(k: real, v: Vec3): Vec3 { Vec3(k * v.x, k * v.y, k * v.z) }

  function Dot(u: Vec3, v: Vec3): real { u.x * v.x + u.y * v.y + u.z * v.z }

  /** `a**2`. */
  function Sq(a: real): real { a * a }

  /** The squared length, numpy's `(v**2).sum()`. */
  function Norm2(v: Vec3): real { Sq(v.x) + Sq(v.y) + Sq(v.z) }

  /** The upper-left 3x3 block of a homogeneous rotation matrix, by rows. */
  datatype Mat3 = Mat3(row0: Vec3, row1: Vec3, row2: Vec3)

  /** numpy's `M.dot(v)`. */
  function MulVec(m: Mat3, v: Vec3): Vec3 { Vec3(Dot(m.row0, v), Dot(m.row1, v), Dot(m.row2, v)) }

  /**
   * `sqrt` is numpy's square root on the non-negative reals. The model takes
   * it as a parameter and asks of it only what the properties need.
   */
  ghost predicate IsSqrt(sqrt: real -> real) {
    forall x: real {:trigger sqrt(x)} :: 0.0 <= x ==> 0.0 <= sqrt(x) && Sq(sqrt(x)) == x
  }

  /** A float64 result that is either an ordinary number or NaN. */
  datatype Float = Finite(value: real) | NaN

  /** A product of two positive numbers is positive. */
  lemma MulPositive(a: real, b: real)
    requires 0.0 < a && 0.0 < b
    ensures 0.0 < a * b
  {
  }

  lemma SquarePositive(a: real)
    requires a != 0.0
    ensures 0.0 < Sq(a)
  {
    if a < 0.0 {
      calc {
        Sq(a);
        (-a) * (-a);
      >  { MulPositive(-a, -a); }
        0.0;
      }
    } else {
      calc {
        Sq(a);
        a * a;
      >  { MulPositive(a, a); }
        0.0;
      }
    }
  }

  lemma SquareNonNegative(a: real)
    ensures 0.0 <= Sq(a)
  {
    if a != 0.0 {
      SquarePositive(a);
    } else {
      assert Sq(a) == 0.0;
    }
  }

  /** Squaring is strictly increasing on the non-negative reals. */
  lemma SquareLess(t: real, s: real)
    requires 0.0 <= t < s
    ensures Sq(t) < Sq(s)
  {
    var p, q := s - t, s + t;
    MulPositive(p, q);
    calc {
      Sq(s) - Sq(t);
      p * q;
    >
      0.0;
    }
  }

  lemma Norm2NonNegative(v: Vec3)
    ensures 0.0 <= Norm2(v)
    ensures v != Zero ==> 0.0 < Norm2(v)
  {
    SquareNonNegative(v.x);
    SquareNonNegative(v.y);
    SquareNonNegative(v.z);
    if v.x != 0.0 {
      SquarePositive(v.x);
    } else if v.y != 0.0 {
      SquarePositive(v.y);
    } else if v.z != 0.0 {
      SquarePositive(v.z);
    } else {
      assert v == Zero;
    }
  }

  /** A non-negative number whose square is `x` is the square root of `x`. */
  lemma SqrtUnique(sqrt: real -> real, x: real, s: real)
    requires IsSqrt(sqrt)
    requires 0.0 <= s && Sq(s) == x
    ensures sqrt(x) == s
  {
    var t := sqrt(x);
    assert 0.0 <= t && Sq(t) == x;
    if t < s {
      SquareLess(t, s);
    } else if s < t {
      SquareLess(s, t);
    }
  }

  lemma DotLinear(row: Vec3, u: Vec3, k: real, v: Vec3)
    ensures Dot(row, Add(u, Scale(k, v))) == Dot(row, u) + k * Dot(row, v)
  {
    calc {
      Dot(row, Add(u, Scale(k, v)));
      row.x * (u.x + k * v.x) + row.y * (u.y + k * v.y) + row.z * (u.z + k * v.z);
      (row.x * u.x + row.y * u.y + row.z * u.z) + k * (row.x * v.x + row.y * v.y + row.z * v.z);
    }
  }

  /** Matrix-vector product is linear: the rotation commutes with sums and scalings. */
  lemma MulVecLinear(m: Mat3, u: Vec3, k: real, v: Vec3)
    ensures MulVec(m, Add(u, Scale(k, v))) == Add(MulVec(m, u), Scale(k, MulVec(m, v)))
  {
    DotLinear(m.row0, u, k, v);
    DotLinear(m.row1, u, k, v);
    DotLinear(m.row2, u, k, v);
  }
}
