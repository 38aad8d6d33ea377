/** The six-coefficient affine transforms of the `affine` package, as used
    by the grid algebra: x' = a*x + b*y + c, y' = d*x + e*y + f; and the
    axis-aligned ones (b = d = 0) that GeoBoxes hold. */
module Affines {

  datatype Affine = Affine(a: real, b: real, c: real, d: real, e: real, f: real)

  datatype Point = Point(x: real, y: real)

  /** Scale and translation only: no rotation or shear terms. */
  predicate AxisAligned(A: Affine) {
    A.b == 0.0 && A.d == 0.0
  }

  /** `A * (x, y)`: map a point through the transform. */
  function Apply(A: Affine, p: Point): Point {
    Point(A.a * p.x + A.b * p.y + A.c, A.d * p.x + A.e * p.y + A.f)
  }

  function Identity(): Affine {
    Affine(1.0, 0.0, 0.0, 0.0, 1.0, 0.0)
  }

  /** `Affine.translation(tx, ty)`. */
  function Translation(tx: real, ty: real): Affine {
    Affine(1.0, 0.0, tx, 0.0, 1.0, ty)
  }

  /** `Affine.scale(sx, sy)`. */
  function Scale(sx: real, sy: real): Affine {
    Affine(sx, 0.0, 0.0, 0.0, sy, 0.0)
  }

  /** What the three basic transforms do to a point. */
  lemma BasicTransforms(p: Point, tx: real, ty: real, sx: real, sy: real)
    ensures Apply(Identity(), p) == p
    ensures Apply(Translation(tx, ty), p) == Point(p.x + tx, p.y + ty)
    ensures Apply(Scale(sx, sy), p) == Point(sx * p.x, sy * p.y)
  {
  }

  /** `A * B`: the transform that applies B first, then A. */
  function Compose(A: Affine, B: Affine): (C: Affine)
  {
    Affine(A.a * B.a + A.b * B.d, A.a * B.b + A.b * B.e, A.a * B.c + A.b * B.f + A.c,
           A.d * B.a + A.e * B.d, A.d * B.b + A.e * B.e, A.d * B.c + A.e * B.f + A.f)
  }

  /** Composition is application in sequence. */
  lemma ComposeApply(A: Affine, B: Affine, p: Point)
    ensures Apply(Compose(A, B), p) == Apply(A, Apply(B, p))
  {
    var q := Apply(B, p);
    var C := Compose(A, B);
    assert q.x == B.a * p.x + B.b * p.y + B.c && q.y == B.d * p.x + B.e * p.y + B.f;
    Distribute(A.a, A.b, B.a, B.b, B.c, B.d, B.e, B.f, p.x, p.y);
    assert Apply(A, q).x == Apply(C, p).x;
    Distribute(A.d, A.e, B.a, B.b, B.c, B.d, B.e, B.f, p.x, p.y);
    assert Apply(A, q).y == Apply(C, p).y;
  }

  /** One output coordinate of a composition, multiplied out. */
  lemma Distribute(k: real, l: real, a: real, b: real, c: real, d: real, e: real, f: real, x: real, y: real)
    ensures k * (a * x + b * y + c) + l * (d * x + e * y + f)
         == (k * a + l * d) * x + (k * b + l * e) * y + (k * c + l * f)
  {
    assert k * (a * x + b * y + c) == (k * a) * x + (k * b) * y + k * c;
    assert l * (d * x + e * y + f) == (l * d) * x + (l * e) * y + l * f;
  }

  // ---------------------------------------------------------------------
  // Axis-aligned transforms

  /** An axis-aligned transform: x' = a*x + c, y' = e*y + f. */
  datatype GridAffine = GridAffine(a: real, c: real, e: real, f: real)

  function ToAffine(G: GridAffine): (A: Affine)
    ensures AxisAligned(A)
  {
    Affine(G.a, 0.0, G.c, 0.0, G.e, G.f)
  }

  /** The axis-aligned affine with the coefficients of A, when it has no
      rotation or shear. */
  function FromAffine(A: Affine): (G: GridAffine)
    requires AxisAligned(A)
    ensures ToAffine(G) == A
  {
    GridAffine(A.a, A.c, A.e, A.f)
  }

  function ApplyGrid(G: GridAffine, p: Point): (q: Point)
  {
    Point(G.a * p.x + G.c, G.e * p.y + G.f)
  }

  /** A grid record acts on a point as its six-coefficient affine does, so
      `ApplyGrid(G, p)` is the package's `affine * (x, y)`. */
  lemma ApplyGridIsApply(G: GridAffine, p: Point)
    ensures ApplyGrid(G, p) == Apply(ToAffine(G), p)
  {
  }

  /** `G * Affine.translation(tx, ty)`: the same grid moved so that its
      origin is where pixel (tx, ty) was. */
  function Translate(G: GridAffine, tx: real, ty: real): (r: GridAffine)
    ensures r.a == G.a && r.e == G.e
    ensures Point(r.c, r.f) == ApplyGrid(G, Point(tx, ty))
  {
    GridAffine(G.a, G.a * tx + G.c, G.e, G.e * ty + G.f)
  }

  /** Translate agrees with composing the full affines. */
  lemma TranslateIsCompose(G: GridAffine, tx: real, ty: real)
    ensures ToAffine(Translate(G, tx, ty)) == Compose(ToAffine(G), Translation(tx, ty))
  {
    var C := Compose(ToAffine(G), Translation(tx, ty));
    assert C.a == G.a && C.b == 0.0 && C.d == 0.0 && C.e == G.e;
    assert C.c == G.a * tx + G.c;
    assert C.f == G.e * ty + G.f;
  }

  /** `G * Affine.scale(sx, sy)`: pixels sx by sy times larger, same origin. */
  function ScaleBy(G: GridAffine, sx: real, sy: real): (r: GridAffine)
    ensures r.c == G.c && r.f == G.f
    ensures r.a == G.a * sx && r.e == G.e * sy
  {
    GridAffine(G.a * sx, G.c, G.e * sy, G.f)
  }

  lemma ScaleByIsCompose(G: GridAffine, sx: real, sy: real)
    ensures ToAffine(ScaleBy(G, sx, sy)) == Compose(ToAffine(G), Scale(sx, sy))
  {
  }

  /** `Affine.translation(tx, ty) * Affine.scale(sx, sy)`: pixel size
      (sx, sy) with origin (tx, ty). */
  function TranslationScale(tx: real, ty: real, sx: real, sy: real): (r: GridAffine)
    ensures ToAffine(r) == Compose(Translation(tx, ty), Scale(sx, sy))
  {
    GridAffine(sx, tx, sy, ty)
  }

  /** `~G`; the package raises for a degenerate transform, whose determinant
      a*e is zero. */
  function Invert(G: GridAffine): (R: GridAffine)
    requires G.a != 0.0 && G.e != 0.0
    ensures forall p :: ApplyGrid(R, ApplyGrid(G, p)) == p
    ensures forall p :: Apply(ToAffine(R), Apply(ToAffine(G), p)) == p
  {
    var R := GridAffine(1.0 / G.a, -G.c / G.a, 1.0 / G.e, -G.f / G.e);
    forall p ensures ApplyGrid(R, ApplyGrid(G, p)) == p && Apply(ToAffine(R), Apply(ToAffine(G), p)) == p {
      assert (1.0 / G.a) * (G.a * p.x + G.c) + -G.c / G.a == p.x;
      assert (1.0 / G.e) * (G.e * p.y + G.f) + -G.f / G.e == p.y;
      ApplyGridIsApply(G, p);
      ApplyGridIsApply(R, ApplyGrid(G, p));
    }
    R
  }

  /** `R * G` for two axis-aligned transforms. */
  function Then(R: GridAffine, G: GridAffine): (r: GridAffine)
  {
    GridAffine(R.a * G.a, R.a * G.c + R.c, R.e * G.e, R.e * G.f + R.f)
  }

  lemma ThenIsCompose(R: GridAffine, G: GridAffine)
    ensures ToAffine(Then(R, G)) == Compose(ToAffine(R), ToAffine(G))
  {
    var C := Compose(ToAffine(R), ToAffine(G));
    assert C.a == R.a * G.a && C.b == 0.0 && C.d == 0.0 && C.e == R.e * G.e;
    assert C.c == R.a * G.c + R.c;
    assert C.f == R.e * G.f + R.f;
  }

  /** `~R * G`: G expressed in R's pixel coordinates. */
  lemma RelativeTransform(R: GridAffine, G: GridAffine)
    requires R.a != 0.0 && R.e != 0.0
    ensures Then(Invert(R), G) == GridAffine(G.a / R.a, (G.c - R.c) / R.a, G.e / R.e, (G.f - R.f) / R.e)
  {
    assert (1.0 / R.a) * G.a == G.a / R.a;
    assert (1.0 / R.a) * G.c + -R.c / R.a == (G.c - R.c) / R.a;
    assert (1.0 / R.e) * G.e == G.e / R.e;
    assert (1.0 / R.e) * G.f + -R.f / R.e == (G.f - R.f) / R.e;
  }

  /** Moving by zero pixels changes nothing. */
  lemma TranslateZero(G: GridAffine)
    ensures Translate(G, 0.0, 0.0) == G
  {
  }

  /** Moves add up. */
  lemma TranslateTwice(G: GridAffine, tx: real, ty: real, ux: real, uy: real)
    ensures Translate(Translate(G, tx, ty), ux, uy) == Translate(G, tx + ux, ty + uy)
  {
    var T := Translate(Translate(G, tx, ty), ux, uy);
    assert T.c == G.a * (tx + ux) + G.c by {
      assert G.a * (tx + ux) == G.a * tx + G.a * ux;
    }
    assert T.f == G.e * (ty + uy) + G.f by {
      assert G.e * (ty + uy) == G.e * ty + G.e * uy;
    }
  }
}
