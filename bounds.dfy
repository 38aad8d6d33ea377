/** BoundingBox: an axis-aligned rectangle (left, bottom, right, top) in world
    or pixel coordinates, and the folds that enclose or overlap a stream of
    them. */
module Bounds {
  import opened Affines

  /** No ordering is enforced: left may exceed right, bottom may exceed top. */
  datatype BoundingBox = BoundingBox(left: real, bottom: real, right: real, top: real)

  function Width(bb: BoundingBox): real {
    bb.right - bb.left
  }

  function Height(bb: BoundingBox): real {
    bb.top - bb.bottom
  }

  predicate Ordered(bb: BoundingBox) {
    bb.left <= bb.right && bb.bottom <= bb.top
  }

  /** `outer` contains `inner` edge by edge. */
  predicate Encloses(outer: BoundingBox, inner: BoundingBox) {
    outer.left <= inner.left && outer.bottom <= inner.bottom &&
    inner.right <= outer.right && inner.top <= outer.top
  }

  predicate Contains(bb: BoundingBox, p: Point) {
    bb.left <= p.x <= bb.right && bb.bottom <= p.y <= bb.top
  }

  /** `buffered(ybuff, xbuff)`: move every edge outwards (inwards for negative
      amounts), keeping the centre where it was. */
  function Buffered(bb: BoundingBox, ybuff: real, xbuff: real): (r: BoundingBox)
    ensures Width(r) == Width(bb) + 2.0 * xbuff && Height(r) == Height(bb) + 2.0 * ybuff
    ensures r.left + r.right == bb.left + bb.right && r.bottom + r.top == bb.bottom + bb.top
  {
    BoundingBox(bb.left - xbuff, bb.bottom - ybuff, bb.right + xbuff, bb.top + ybuff)
  }

  /** Buffering by the opposite amounts undoes a buffer. */
  lemma BufferedInverse(bb: BoundingBox, ybuff: real, xbuff: real)
    ensures Buffered(Buffered(bb, ybuff, xbuff), -ybuff, -xbuff) == bb
  {
  }

  /** A non-negative buffer of a box encloses the box. */
  lemma BufferedEncloses(bb: BoundingBox, ybuff: real, xbuff: real)
    requires ybuff >= 0.0 && xbuff >= 0.0
    ensures Encloses(Buffered(bb, ybuff, xbuff), bb)
  {
  }

  lemma BufferedExample()
    ensures Buffered(BoundingBox(0.0, 0.0, 10.0, 10.0), 1.0, 2.0) == BoundingBox(-2.0, -1.0, 12.0, 11.0)
  {
  }

  /** `points`: the four corners, x-major: the product of (left, right) with
      (bottom, top). */
  function Points(bb: BoundingBox): (ps: seq<Point>)
    ensures |ps| == 4
    ensures forall p :: p in ps <==> (p.x == bb.left || p.x == bb.right) && (p.y == bb.bottom || p.y == bb.top)
    ensures forall i :: 0 <= i < 4 ==> ps[i].x == (if i < 2 then bb.left else bb.right)
    ensures forall i :: 0 <= i < 4 ==> ps[i].y == (if i % 2 == 0 then bb.bottom else bb.top)
  {
    [Point(bb.left, bb.bottom), Point(bb.left, bb.top), Point(bb.right, bb.bottom), Point(bb.right, bb.top)]
  }

  /** Python's min() of a non-empty list. */
  function MinOf(xs: seq<real>): (m: real)
    requires |xs| > 0
    ensures m in xs
    ensures forall i :: 0 <= i < |xs| ==> m <= xs[i]
  {
    if |xs| == 1 then xs[0]
    else
      var rest := MinOf(xs[1..]);
      if xs[0] <= rest then xs[0] else rest
  }

  /** Python's max() of a non-empty list. */
  function MaxOf(xs: seq<real>): (m: real)
    requires |xs| > 0
    ensures m in xs
    ensures forall i :: 0 <= i < |xs| ==> xs[i] <= m
  {
    if |xs| == 1 then xs[0]
    else
      var rest := MaxOf(xs[1..]);
      if xs[0] >= rest then xs[0] else rest
  }

  function MappedCorners(bb: BoundingBox, A: Affine): (qs: seq<Point>)
    ensures |qs| == 4
  {
    var ps := Points(bb);
    [Apply(A, ps[0]), Apply(A, ps[1]), Apply(A, ps[2]), Apply(A, ps[3])]
  }

  function Xs(qs: seq<Point>): (xs: seq<real>)
    ensures |xs| == |qs| && forall i :: 0 <= i < |qs| ==> xs[i] == qs[i].x
  {
    seq(|qs|, i requires 0 <= i < |qs| => qs[i].x)
  }

  function Ys(qs: seq<Point>): (ys: seq<real>)
    ensures |ys| == |qs| && forall i :: 0 <= i < |qs| ==> ys[i] == qs[i].y
  {
    seq(|qs|, i requires 0 <= i < |qs| => qs[i].y)
  }

  /** The smallest box around a non-empty list of points: min and max per axis. */
  function BoxAround(qs: seq<Point>): (r: BoundingBox)
    requires |qs| > 0
    ensures Ordered(r)
    ensures forall i :: 0 <= i < |qs| ==> Contains(r, qs[i])
    ensures r.left in Xs(qs) && r.right in Xs(qs) && r.bottom in Ys(qs) && r.top in Ys(qs)
  {
    BoundingBox(MinOf(Xs(qs)), MinOf(Ys(qs)), MaxOf(Xs(qs)), MaxOf(Ys(qs)))
  }

  /** `transform(A)`: the smallest box around the four mapped corners.  Each
      mapped corner lies in the result and each edge passes through one of
      them. */
  function Transform(bb: BoundingBox, A: Affine): (r: BoundingBox)
    ensures Ordered(r)
    ensures forall i :: 0 <= i < 4 ==> Contains(r, MappedCorners(bb, A)[i])
    ensures r.left in Xs(MappedCorners(bb, A)) && r.right in Xs(MappedCorners(bb, A))
    ensures r.bottom in Ys(MappedCorners(bb, A)) && r.top in Ys(MappedCorners(bb, A))
  {
    BoxAround(MappedCorners(bb, A))
  }

  lemma MulMonotone(s: real, x: real, y: real)
    requires x <= y
    ensures s >= 0.0 ==> s * x <= s * y
    ensures s < 0.0 ==> s * y <= s * x
  {
  }

  lemma MinMaxOfPairs(lo: real, hi: real)
    ensures MinOf([lo, lo, hi, hi]) == (if lo <= hi then lo else hi)
    ensures MaxOf([lo, lo, hi, hi]) == (if lo <= hi then hi else lo)
    ensures MinOf([lo, hi, lo, hi]) == (if lo <= hi then lo else hi)
    ensures MaxOf([lo, hi, lo, hi]) == (if lo <= hi then hi else lo)
  {
    var xs, ys := [lo, lo, hi, hi], [lo, hi, lo, hi];
    assert MinOf(xs) in xs && MaxOf(xs) in xs;
    assert xs[0] == lo && xs[2] == hi;
    assert MinOf(ys) in ys && MaxOf(ys) in ys;
    assert ys[0] == lo && ys[1] == hi;
  }

  /** The corners of an axis-aligned image: x takes x0 on the left corners and
      x1 on the right ones, y takes y0 at the bottom and y1 at the top. */
  lemma MappedCornersAxisAligned(bb: BoundingBox, G: GridAffine, x0: real, x1: real, y0: real, y1: real)
    requires x0 == G.a * bb.left + G.c && x1 == G.a * bb.right + G.c
    requires y0 == G.e * bb.bottom + G.f && y1 == G.e * bb.top + G.f
    ensures Transform(bb, ToAffine(G)) == BoundingBox(MinOf([x0, x0, x1, x1]), MinOf([y0, y1, y0, y1]),
                                                      MaxOf([x0, x0, x1, x1]), MaxOf([y0, y1, y0, y1]))
  {
    var qs := MappedCorners(bb, ToAffine(G));
    assert qs[0] == Point(x0, y0) && qs[1] == Point(x0, y1);
    assert qs[2] == Point(x1, y0) && qs[3] == Point(x1, y1);
    assert Xs(qs) == [qs[0].x, qs[1].x, qs[2].x, qs[3].x];
    assert Ys(qs) == [qs[0].y, qs[1].y, qs[2].y, qs[3].y];
  }

  /** The lesser and greater of two edges.  Kept apart from MinOf/MaxOf,
      which fold over the mapped corners, so that the axis-aligned lemmas
      below can name each axis's two edge images directly. */
  function Lo(x: real, y: real): real {
    if x <= y then x else y
  }

  function Hi(x: real, y: real): real {
    if x <= y then y else x
  }

  /** Through an axis-aligned transform each axis is mapped on its own: the
      result spans the images of the two edges on that axis, whatever the
      sign of the scale. */
  lemma TransformAxisAligned(bb: BoundingBox, G: GridAffine)
    ensures Transform(bb, ToAffine(G)) == BoundingBox(
      Lo(G.a * bb.left + G.c, G.a * bb.right + G.c), Lo(G.e * bb.bottom + G.f, G.e * bb.top + G.f),
      Hi(G.a * bb.left + G.c, G.a * bb.right + G.c), Hi(G.e * bb.bottom + G.f, G.e * bb.top + G.f))
  {
    LoHiCorners(bb, G, G.a * bb.left + G.c, G.a * bb.right + G.c, G.e * bb.bottom + G.f, G.e * bb.top + G.f);
  }

  lemma LoHiCorners(bb: BoundingBox, G: GridAffine, x0: real, x1: real, y0: real, y1: real)
    requires x0 == G.a * bb.left + G.c && x1 == G.a * bb.right + G.c
    requires y0 == G.e * bb.bottom + G.f && y1 == G.e * bb.top + G.f
    ensures Transform(bb, ToAffine(G)) == BoundingBox(Lo(x0, x1), Lo(y0, y1), Hi(x0, x1), Hi(y0, y1))
  {
    MappedCornersAxisAligned(bb, G, x0, x1, y0, y1);
    MinMaxOfPairs(x0, x1);
    MinMaxOfPairs(y0, y1);
  }

  /** With non-negative scales an ordered box maps edge to edge. */
  lemma TransformPositiveScale(bb: BoundingBox, G: GridAffine)
    requires Ordered(bb) && G.a >= 0.0 && G.e >= 0.0
    ensures Transform(bb, ToAffine(G)) == BoundingBox(G.a * bb.left + G.c, G.e * bb.bottom + G.f, G.a * bb.right + G.c, G.e * bb.top + G.f)
  {
    var x0, x1 := G.a * bb.left, G.a * bb.right;
    var y0, y1 := G.e * bb.bottom, G.e * bb.top;
    assert x0 <= x1 by { MulMonotone(G.a, bb.left, bb.right); }
    assert y0 <= y1 by { MulMonotone(G.e, bb.bottom, bb.top); }
    OrderedCorners(bb, G, G.a * bb.left + G.c, G.a * bb.right + G.c, G.e * bb.bottom + G.f, G.e * bb.top + G.f);
  }

  lemma OrderedCorners(bb: BoundingBox, G: GridAffine, x0: real, x1: real, y0: real, y1: real)
    requires x0 == G.a * bb.left + G.c && x1 == G.a * bb.right + G.c
    requires y0 == G.e * bb.bottom + G.f && y1 == G.e * bb.top + G.f
    requires x0 <= x1 && y0 <= y1
    ensures Transform(bb, ToAffine(G)) == BoundingBox(x0, y0, x1, y1)
  {
    MappedCornersAxisAligned(bb, G, x0, x1, y0, y1);
    MinMaxOfPairs(x0, x1);
    MinMaxOfPairs(y0, y1);
  }

  /** The identity transform gives an ordered box back unchanged. */
  lemma TransformIdentity(bb: BoundingBox)
    requires Ordered(bb)
    ensures Transform(bb, Identity()) == bb
  {
    var G := GridAffine(1.0, 0.0, 1.0, 0.0);
    assert ToAffine(G) == Identity();
    TransformPositiveScale(bb, G);
  }

  // ---------------------------------------------------------------------
  // bbox_union / bbox_intersection

  /** A float accumulator: +inf and -inf are the starting values of the folds. */
  datatype Ext = NegInf | Fin(v: real) | PosInf

  predicate ExtLe(x: Ext, y: Ext) {
    x.NegInf? || y.PosInf? || (x.Fin? && y.Fin? && x.v <= y.v)
  }

  function ExtMin(x: Ext, y: Ext): (m: Ext)
    ensures ExtLe(m, x) && ExtLe(m, y) && (m == x || m == y)
  {
    if ExtLe(x, y) then x else y
  }

  function ExtMax(x: Ext, y: Ext): (m: Ext)
    ensures ExtLe(x, m) && ExtLe(y, m) && (m == x || m == y)
  {
    if ExtLe(x, y) then y else x
  }

  /** The BoundingBox the folds return, whose edges may be infinite. */
  datatype ExtBox = ExtBox(left: Ext, bottom: Ext, right: Ext, top: Ext) {
    predicate IsFinite() {
      left.Fin? && bottom.Fin? && right.Fin? && top.Fin?
    }

    function ToBox(): BoundingBox
      requires IsFinite()
    {
      BoundingBox(left.v, bottom.v, right.v, top.v)
    }
  }

  function UnionStep(acc: ExtBox, bb: BoundingBox): ExtBox {
    ExtBox(ExtMin(Fin(bb.left), acc.left), ExtMin(Fin(bb.bottom), acc.bottom),
           ExtMax(Fin(bb.right), acc.right), ExtMax(Fin(bb.top), acc.top))
  }

  function IntersectionStep(acc: ExtBox, bb: BoundingBox): ExtBox {
    ExtBox(ExtMax(Fin(bb.left), acc.left), ExtMax(Fin(bb.bottom), acc.bottom),
           ExtMin(Fin(bb.right), acc.right), ExtMin(Fin(bb.top), acc.top))
  }

  /** The value bbox_union computes, folding left to right from
      (+inf, +inf, -inf, -inf). */
  function UnionOf(bbs: seq<BoundingBox>): ExtBox
  {
    if |bbs| == 0 then ExtBox(PosInf, PosInf, NegInf, NegInf)
    else UnionStep(UnionOf(bbs[..|bbs| - 1]), bbs[|bbs| - 1])
  }

  /** The value bbox_intersection computes, folding left to right from
      (-inf, -inf, +inf, +inf). */
  function IntersectionOf(bbs: seq<BoundingBox>): ExtBox
  {
    if |bbs| == 0 then ExtBox(NegInf, NegInf, PosInf, PosInf)
    else IntersectionStep(IntersectionOf(bbs[..|bbs| - 1]), bbs[|bbs| - 1])
  }

  /** For a non-empty stream the union is finite, encloses every input, and
      each of its edges is the edge of some input (so no smaller box would do). */
  lemma {:induction false} UnionOfEncloses(bbs: seq<BoundingBox>)
    requires |bbs| > 0
    ensures UnionOf(bbs).IsFinite()
    ensures forall i :: 0 <= i < |bbs| ==> Encloses(UnionOf(bbs).ToBox(), bbs[i])
    ensures exists i :: 0 <= i < |bbs| && UnionOf(bbs).left.v == bbs[i].left
    ensures exists i :: 0 <= i < |bbs| && UnionOf(bbs).bottom.v == bbs[i].bottom
    ensures exists i :: 0 <= i < |bbs| && UnionOf(bbs).right.v == bbs[i].right
    ensures exists i :: 0 <= i < |bbs| && UnionOf(bbs).top.v == bbs[i].top
  {
    var n := |bbs| - 1;
    if n > 0 {
      UnionOfEncloses(bbs[..n]);
      var prev := UnionOf(bbs[..n]);
      assert forall i :: 0 <= i < n ==> bbs[..n][i] == bbs[i];
      var u := UnionOf(bbs);
      if u.left == Fin(bbs[n].left) {
        assert u.left.v == bbs[n].left;
      } else {
        var j :| 0 <= j < n && prev.left.v == bbs[..n][j].left;
        assert u.left.v == bbs[j].left;
      }
      if u.bottom == Fin(bbs[n].bottom) {
        assert u.bottom.v == bbs[n].bottom;
      } else {
        var j :| 0 <= j < n && prev.bottom.v == bbs[..n][j].bottom;
        assert u.bottom.v == bbs[j].bottom;
      }
      if u.right == Fin(bbs[n].right) {
        assert u.right.v == bbs[n].right;
      } else {
        var j :| 0 <= j < n && prev.right.v == bbs[..n][j].right;
        assert u.right.v == bbs[j].right;
      }
      if u.top == Fin(bbs[n].top) {
        assert u.top.v == bbs[n].top;
      } else {
        var j :| 0 <= j < n && prev.top.v == bbs[..n][j].top;
        assert u.top.v == bbs[j].top;
      }
    }
  }

  /** For a non-empty stream the intersection is finite, lies inside every
      input, and each of its edges is the edge of some input. */
  lemma {:induction false} IntersectionOfInside(bbs: seq<BoundingBox>)
    requires |bbs| > 0
    ensures IntersectionOf(bbs).IsFinite()
    ensures forall i :: 0 <= i < |bbs| ==> Encloses(bbs[i], IntersectionOf(bbs).ToBox())
    ensures exists i :: 0 <= i < |bbs| && IntersectionOf(bbs).left.v == bbs[i].left
    ensures exists i :: 0 <= i < |bbs| && IntersectionOf(bbs).bottom.v == bbs[i].bottom
    ensures exists i :: 0 <= i < |bbs| && IntersectionOf(bbs).right.v == bbs[i].right
    ensures exists i :: 0 <= i < |bbs| && IntersectionOf(bbs).top.v == bbs[i].top
  {
    var n := |bbs| - 1;
    if n > 0 {
      IntersectionOfInside(bbs[..n]);
      var prev := IntersectionOf(bbs[..n]);
      assert forall i :: 0 <= i < n ==> bbs[..n][i] == bbs[i];
      var u := IntersectionOf(bbs);
      if u.left == Fin(bbs[n].left) {
        assert u.left.v == bbs[n].left;
      } else {
        var j :| 0 <= j < n && prev.left.v == bbs[..n][j].left;
        assert u.left.v == bbs[j].left;
      }
      if u.bottom == Fin(bbs[n].bottom) {
        assert u.bottom.v == bbs[n].bottom;
      } else {
        var j :| 0 <= j < n && prev.bottom.v == bbs[..n][j].bottom;
        assert u.bottom.v == bbs[j].bottom;
      }
      if u.right == Fin(bbs[n].right) {
        assert u.right.v == bbs[n].right;
      } else {
        var j :| 0 <= j < n && prev.right.v == bbs[..n][j].right;
        assert u.right.v == bbs[j].right;
      }
      if u.top == Fin(bbs[n].top) {
        assert u.top.v == bbs[n].top;
      } else {
        var j :| 0 <= j < n && prev.top.v == bbs[..n][j].top;
        assert u.top.v == bbs[j].top;
      }
    }
  }

  /** The union is the least box that encloses every input. */
  lemma UnionIsLeast(bbs: seq<BoundingBox>, outer: BoundingBox)
    requires |bbs| > 0
    requires forall i :: 0 <= i < |bbs| ==> Encloses(outer, bbs[i])
    ensures UnionOf(bbs).IsFinite() && Encloses(outer, UnionOf(bbs).ToBox())
  {
    UnionOfEncloses(bbs);
  }

  /** The intersection is the greatest box inside every input. */
  lemma IntersectionIsGreatest(bbs: seq<BoundingBox>, inner: BoundingBox)
    requires |bbs| > 0
    requires forall i :: 0 <= i < |bbs| ==> Encloses(bbs[i], inner)
    ensures IntersectionOf(bbs).IsFinite() && Encloses(IntersectionOf(bbs).ToBox(), inner)
  {
    IntersectionOfInside(bbs);
  }

  /** On two boxes the folds are the edge-wise minimum and maximum. */
  lemma FoldsOfPair(b: BoundingBox, c: BoundingBox)
    ensures UnionOf([b, c]) == ExtBox(Fin(Lo(b.left, c.left)), Fin(Lo(b.bottom, c.bottom)), Fin(Hi(b.right, c.right)), Fin(Hi(b.top, c.top)))
    ensures IntersectionOf([b, c]) == ExtBox(Fin(Hi(b.left, c.left)), Fin(Hi(b.bottom, c.bottom)), Fin(Lo(b.right, c.right)), Fin(Lo(b.top, c.top)))
  {
    assert [b, c][..1] == [b];
    assert [b][..0] == [];
    assert UnionOf([b]) == ExtBox(Fin(b.left), Fin(b.bottom), Fin(b.right), Fin(b.top));
    assert IntersectionOf([b]) == ExtBox(Fin(b.left), Fin(b.bottom), Fin(b.right), Fin(b.top));
  }

  /** bbox_union: the loop over the stream with accumulators L, B, R, T. */
  method BboxUnion(bbs: seq<BoundingBox>) returns (r: ExtBox)
    ensures r == UnionOf(bbs)
    ensures |bbs| == 0 ==> r == ExtBox(PosInf, PosInf, NegInf, NegInf)
    ensures |bbs| > 0 ==> r.IsFinite() && forall i :: 0 <= i < |bbs| ==> Encloses(r.ToBox(), bbs[i])
  {
    var L, B, R, T := PosInf, PosInf, NegInf, NegInf;
    for k := 0 to |bbs|
      invariant ExtBox(L, B, R, T) == UnionOf(bbs[..k])
    {
      var bb := bbs[k];
      assert bbs[..k + 1][..k] == bbs[..k];
      L := ExtMin(Fin(bb.left), L);
      B := ExtMin(Fin(bb.bottom), B);
      R := ExtMax(Fin(bb.right), R);
      T := ExtMax(Fin(bb.top), T);
    }
    assert bbs[..|bbs|] == bbs;
    r := ExtBox(L, B, R, T);
    if |bbs| > 0 {
      UnionOfEncloses(bbs);
    }
  }

  /** bbox_intersection: the loop over the stream with accumulators L, B, R, T. */
  method BboxIntersection(bbs: seq<BoundingBox>) returns (r: ExtBox)
    ensures r == IntersectionOf(bbs)
    ensures |bbs| == 0 ==> r == ExtBox(NegInf, NegInf, PosInf, PosInf)
    ensures |bbs| > 0 ==> r.IsFinite() && forall i :: 0 <= i < |bbs| ==> Encloses(bbs[i], r.ToBox())
  {
    var L, B, R, T := NegInf, NegInf, PosInf, PosInf;
    for k := 0 to |bbs|
      invariant ExtBox(L, B, R, T) == IntersectionOf(bbs[..k])
    {
      var bb := bbs[k];
      assert bbs[..k + 1][..k] == bbs[..k];
      L := ExtMax(Fin(bb.left), L);
      B := ExtMax(Fin(bb.bottom), B);
      R := ExtMin(Fin(bb.right), R);
      T := ExtMin(Fin(bb.top), T);
    }
    assert bbs[..|bbs|] == bbs;
    r := ExtBox(L, B, R, T);
    if |bbs| > 0 {
      IntersectionOfInside(bbs);
    }
  }
}
