/**
 `geom::barycentric` and `geom::peerDot`, over exact reals in place of
 `float`. Only the x and y coordinates of the points take part.
 */
module Geometry {

  datatype Vec2 = Vec2(x: real, y: real)
  datatype Vec3 = Vec3(x: real, y: real, z: real)
  datatype Vec4 = Vec4(x: real, y: real, z: real, w: real)

  function AbsReal(r: real): real
  {
    if r < 0.0 then -r else r
  }

  /** `peerDot`: the 2D cross product, twice the signed area spanned by `a` and `b`. */
  function PeerDot(a: Vec2, b: Vec2): real
  {
    a.x * b.y - a.y * b.x
  }

  /** The xy part of `p - q`. */
  function Diff(p: Vec3, q: Vec3): Vec2
  {
    Vec2(p.x - q.x, p.y - q.y)
  }

  /** `peerDot` is antisymmetric, so a vector crossed with itself gives 0. */
  lemma PeerDotAntisymmetric(a: Vec2, b: Vec2)
    ensures PeerDot(a, b) == -PeerDot(b, a)
    ensures PeerDot(a, a) == 0.0
  {
  }

  /** `peerDot` is linear in its first argument (and so, by antisymmetry, in its second). */
  lemma PeerDotLinear(a: Vec2, c: Vec2, b: Vec2, t: real)
    ensures PeerDot(Vec2(a.x + t * c.x, a.y + t * c.y), b) == PeerDot(a, b) + t * PeerDot(c, b)
  {
  }

  /** The three cross products of `geom::barycentric`: `ABC`, `BCP` and `CAP`. */
  function AreaABC(A: Vec3, B: Vec3, C: Vec3): real
  {
    (C.x - A.x) * (B.y - A.y) - (C.y - A.y) * (B.x - A.x)
  }

  function AreaBCP(B: Vec3, C: Vec3, P: Vec3): real
  {
    (C.x - P.x) * (B.y - P.y) - (C.y - P.y) * (B.x - P.x)
  }

  function AreaCAP(A: Vec3, C: Vec3, P: Vec3): real
  {
    (A.x - P.x) * (C.y - P.y) - (C.x - P.x) * (A.y - P.y)
  }

  /** The three cross products are `peerDot`s of edge vectors. */
  lemma AreasArePeerDots(A: Vec3, B: Vec3, C: Vec3, P: Vec3)
    ensures AreaABC(A, B, C) == PeerDot(Diff(C, A), Diff(B, A))
    ensures AreaBCP(B, C, P) == PeerDot(Diff(C, P), Diff(B, P))
    ensures AreaCAP(A, C, P) == PeerDot(Diff(A, P), Diff(C, P))
  {
  }

  /** The threshold below which the third weight counts as zero. */
  const Tolerance: real := 0.01

  /** The sentinel for "not covered": its first weight is negative. */
  const Uncovered: Vec3 := Vec3(-1.0, 1.0, 1.0)

  /** `P` has the affine weights `w` with respect to `A`, `B`, `C` (in x and y). */
  predicate IsWeights(A: Vec3, B: Vec3, C: Vec3, P: Vec3, w: Vec3)
  {
    && w.x + w.y + w.z == 1.0
    && w.x * A.x + w.y * B.x + w.z * C.x == P.x
    && w.x * A.y + w.y * B.y + w.z * C.y == P.y
  }

  /**
   `geom::barycentric(A, B, C, P)`: the weights `(u, v, 1 - u - v)` of `P`,
   unless the third one is within the tolerance of zero, in which case the
   sentinel `(-1, 1, 1)`. A degenerate triangle divides by zero, which the
   reals cannot express, so it is excluded.
   */
  function Barycentric(A: Vec3, B: Vec3, C: Vec3, P: Vec3): (r: Vec3)
    requires AreaABC(A, B, C) != 0.0
    ensures r == Uncovered || IsWeights(A, B, C, P, r)
  {
    var abc := AreaABC(A, B, C);
    var u := AreaBCP(B, C, P) / abc;
    var v := AreaCAP(A, C, P) / abc;
    CramerWeights(A, B, C, P);
    if AbsReal(1.0 - u - v) > Tolerance then Vec3(u, v, 1.0 - u - v) else Uncovered
  }

  /** Cramer's rule: the cross products solve for the weights of `P`. */
  lemma CramerWeights(A: Vec3, B: Vec3, C: Vec3, P: Vec3)
    requires AreaABC(A, B, C) != 0.0
    ensures var abc := AreaABC(A, B, C);
            var u := AreaBCP(B, C, P) / abc;
            var v := AreaCAP(A, C, P) / abc;
            IsWeights(A, B, C, P, Vec3(u, v, 1.0 - u - v))
  {
    var abc, bcp, cap := AreaABC(A, B, C), AreaBCP(B, C, P), AreaCAP(A, C, P);
    var u, v := bcp / abc, cap / abc;
    assert bcp * (A.x - C.x) + cap * (B.x - C.x) == abc * (P.x - C.x);
    assert bcp * (A.y - C.y) + cap * (B.y - C.y) == abc * (P.y - C.y);
    assert bcp == u * abc && cap == v * abc;
    assert abc * (u * (A.x - C.x) + v * (B.x - C.x)) == abc * (P.x - C.x);
    assert abc * (u * (A.y - C.y) + v * (B.y - C.y)) == abc * (P.y - C.y);
    CancelNonZero(abc, u * (A.x - C.x) + v * (B.x - C.x), P.x - C.x);
    CancelNonZero(abc, u * (A.y - C.y) + v * (B.y - C.y), P.y - C.y);
  }

  lemma CancelNonZero(k: real, a: real, b: real)
    requires k != 0.0 && k * a == k * b
    ensures a == b
  {
    assert k * (a - b) == 0.0;
  }

  /** The weights of a point are unique when the triangle is not degenerate. */
  lemma WeightsUnique(A: Vec3, B: Vec3, C: Vec3, P: Vec3, w1: Vec3, w2: Vec3)
    requires AreaABC(A, B, C) != 0.0
    requires IsWeights(A, B, C, P, w1) && IsWeights(A, B, C, P, w2)
    ensures w1 == w2
  {
    var da, db := w1.x - w2.x, w1.y - w2.y;
    var x1, y1, x2, y2 := A.x - C.x, A.y - C.y, B.x - C.x, B.y - C.y;
    assert w1.z == 1.0 - w1.x - w1.y && w2.z == 1.0 - w2.x - w2.y;
    assert da * x1 + db * x2 == 0.0;
    assert da * y1 + db * y2 == 0.0;
    var det := x1 * y2 - y1 * x2;
    assert det == -AreaABC(A, B, C);
    assert da * det == y2 * (da * x1 + db * x2) - x2 * (da * y1 + db * y2);
    assert db * det == x1 * (da * y1 + db * y2) - y1 * (da * x1 + db * x2);
    ZeroProduct(da, det);
    ZeroProduct(db, det);
  }

  lemma ZeroProduct(a: real, b: real)
    requires b != 0.0 && a * b == 0.0
    ensures a == 0.0
  {
  }

  /**
   What `geom::barycentric` returns, stated through the true weights of `P`:
   those weights when the third is more than the tolerance away from zero,
   and the sentinel otherwise.
   */
  lemma BarycentricSpec(A: Vec3, B: Vec3, C: Vec3, P: Vec3, w: Vec3)
    requires AreaABC(A, B, C) != 0.0
    requires IsWeights(A, B, C, P, w)
    ensures Barycentric(A, B, C, P) == if AbsReal(w.z) > Tolerance then w else Uncovered
  {
    var abc := AreaABC(A, B, C);
    var u := AreaBCP(B, C, P) / abc;
    var v := AreaCAP(A, C, P) / abc;
    CramerWeights(A, B, C, P);
    WeightsUnique(A, B, C, P, w, Vec3(u, v, 1.0 - u - v));
  }

  /** For A=(0,0), B=(4,0), C=(0,4), the point P=(1,1) gets the weights (0.5, 0.25, 0.25). */
  lemma BarycentricInsideExample()
    ensures Barycentric(Vec3(0.0, 0.0, 0.0), Vec3(4.0, 0.0, 0.0), Vec3(0.0, 4.0, 0.0), Vec3(1.0, 1.0, 0.0))
            == Vec3(0.5, 0.25, 0.25)
  {
    var A, B, C, P := Vec3(0.0, 0.0, 0.0), Vec3(4.0, 0.0, 0.0), Vec3(0.0, 4.0, 0.0), Vec3(1.0, 1.0, 0.0);
    assert AreaABC(A, B, C) == -16.0;
    assert IsWeights(A, B, C, P, Vec3(0.5, 0.25, 0.25));
    BarycentricSpec(A, B, C, P, Vec3(0.5, 0.25, 0.25));
  }

  /** For the same triangle, P=(3,3) lies outside and gets a negative first weight. */
  lemma BarycentricOutsideExample()
    ensures Barycentric(Vec3(0.0, 0.0, 0.0), Vec3(4.0, 0.0, 0.0), Vec3(0.0, 4.0, 0.0), Vec3(3.0, 3.0, 0.0))
            == Vec3(-0.5, 0.75, 0.75)
  {
    var A, B, C, P := Vec3(0.0, 0.0, 0.0), Vec3(4.0, 0.0, 0.0), Vec3(0.0, 4.0, 0.0), Vec3(3.0, 3.0, 0.0);
    assert AreaABC(A, B, C) == -16.0;
    assert IsWeights(A, B, C, P, Vec3(-0.5, 0.75, 0.75));
    BarycentricSpec(A, B, C, P, Vec3(-0.5, 0.75, 0.75));
  }

  /**
   As written, the tolerance test falls on the third weight, so every point of
   edge AB, vertices A and B included, gets the sentinel and is reported
   outside the triangle, while vertex C is reported inside.
   */
  lemma BarycentricRejectsEdgeAB(A: Vec3, B: Vec3, C: Vec3, t: real)
    requires AreaABC(A, B, C) != 0.0 && 0.0 <= t <= 1.0
    ensures Barycentric(A, B, C, Vec3(A.x + t * (B.x - A.x), A.y + t * (B.y - A.y), 0.0)) == Uncovered
    ensures Barycentric(A, B, C, C) == Vec3(0.0, 0.0, 1.0)
  {
    BarycentricSpec(A, B, C, Vec3(A.x + t * (B.x - A.x), A.y + t * (B.y - A.y), 0.0), Vec3(1.0 - t, t, 0.0));
    BarycentricSpec(A, B, C, C, Vec3(0.0, 0.0, 1.0));
  }

  /** A point is inside (or on) the triangle when no weight is negative. */
  predicate Covered(w: Vec3)
  {
    w.x >= 0.0 && w.y >= 0.0 && w.z >= 0.0
  }

  /**
   The barycentric test with the tolerance applied where it guards against
   division by a near-zero area: a triangle whose doubled area is within the
   tolerance of zero gives the sentinel; any other gives the exact weights.
   */
  function BarycentricChecked(A: Vec3, B: Vec3, C: Vec3, P: Vec3): (r: Vec3)
    ensures r == Uncovered || IsWeights(A, B, C, P, r)
  {
    var abc := AreaABC(A, B, C);
    if AbsReal(abc) > Tolerance then
      CramerWeights(A, B, C, P);
      Vec3(AreaBCP(B, C, P) / abc, AreaCAP(A, C, P) / abc, 1.0 - AreaBCP(B, C, P) / abc - AreaCAP(A, C, P) / abc)
    else
      Uncovered
  }

  /**
   With the area test, a non-degenerate triangle reports every point by its
   true weights, so exactly the points of the closed triangle are covered,
   edges and vertices included; a degenerate one covers nothing.
   */
  lemma BarycentricCheckedSpec(A: Vec3, B: Vec3, C: Vec3, P: Vec3, w: Vec3)
    requires IsWeights(A, B, C, P, w)
    ensures AbsReal(AreaABC(A, B, C)) > Tolerance ==>
              BarycentricChecked(A, B, C, P) == w
              && (Covered(BarycentricChecked(A, B, C, P)) <==> Covered(w))
    ensures AbsReal(AreaABC(A, B, C)) <= Tolerance ==> !Covered(BarycentricChecked(A, B, C, P))
  {
    if AbsReal(AreaABC(A, B, C)) > Tolerance {
      WeightsUnique(A, B, C, P, w, BarycentricChecked(A, B, C, P));
    }
  }
}
