/** Reconciling grids: the pixel-domain bounding box of one GeoBox with
    respect to another, and the conservative union and intersection of
    GeoBoxes that share a pixel grid. */
module PixelDomain {
  import opened Results
  import opened Numeric
  import opened Affines
  import opened Bounds
  import opened GridAlignment
  import opened Geo

  /** `g` lies on the pixel grid of `ref`, shifted by whole pixels (tx, ty). */
  predicate ShiftedBy(g: GeoBox, ref: GeoBox, tx: int, ty: int) {
    g.crs == ref.crs && g.affine == Translate(ref.affine, tx as real, ty as real)
  }

  /** A pixel box: integral corners, spanning the grid's width and height. */
  predicate PixelBoxOf(bb: BoundingBox, g: GeoBox) {
    IsInt(bb.left) && IsInt(bb.bottom)
    && bb.right == bb.left + g.width as real && bb.top == bb.bottom + g.height as real
  }

  /** `bounding_box_in_pixel_domain(geobox, reference)`: differing CRSs
      raise first, then inverting a singular reference affine, then a
      relative transform that is not a whole-pixel translation.  On success
      the box runs from the translation (tx, ty) to (tx + width,
      ty + height). */
  function BoundingBoxInPixelDomain(g: GeoBox, ref: GeoBox): (r: Result<BoundingBox>)
    ensures r.Err? ==> (r.error == CrsMismatch <==> g.crs != ref.crs)
    ensures r.Err? && g.crs == ref.crs ==> (r.error == NotInvertible <==> ref.affine.a == 0.0 || ref.affine.e == 0.0)
    ensures r.Err? ==> r.error == CrsMismatch || r.error == NotInvertible || r.error == IncompatibleGrids
    ensures r.Ok? ==> ref.affine.a != 0.0 && ref.affine.e != 0.0 && PixelBoxOf(r.value, g)
    ensures r.Ok? ==> g.crs == ref.crs && g.affine == Translate(ref.affine, r.value.left, r.value.bottom)
  {
    if ref.crs != g.crs then Err(CrsMismatch)
    else if ref.affine.a == 0.0 || ref.affine.e == 0.0 then Err(NotInvertible)
    else
      var rel := Then(Invert(ref.affine), g.affine);
      if !(rel.a == 1.0 && IsInt(rel.c) && rel.e == 1.0 && IsInt(rel.f)) then Err(IncompatibleGrids)
      else
        var tx := rel.c.Floor;
        var ty := rel.f.Floor;
        RelativeShift(ref.affine, g.affine, tx, ty);
        Ok(BoundingBox(tx as real, ty as real, (tx + g.width) as real, (ty + g.height) as real))
  }

  /** A relative transform that is the whole-pixel translation (tx, ty)
      means the grid is the reference grid moved by (tx, ty) pixels. */
  lemma RelativeShift(R: GridAffine, G: GridAffine, tx: int, ty: int)
    requires R.a != 0.0 && R.e != 0.0
    requires Then(Invert(R), G) == GridAffine(1.0, tx as real, 1.0, ty as real)
    ensures G == Translate(R, tx as real, ty as real)
  {
    RelativeTransform(R, G);
    assert G.a / R.a == 1.0 && (G.c - R.c) / R.a == tx as real;
    assert G.e / R.e == 1.0 && (G.f - R.f) / R.e == ty as real;
    assert G.c == R.a * (tx as real) + R.c;
    assert G.f == R.e * (ty as real) + R.f;
  }

  /** Conversely, a grid moved by whole pixels from an invertible reference
      in the same CRS is accepted, and its pixel box is exactly the shift
      plus its own size. */
  lemma PixelDomainOfShift(g: GeoBox, ref: GeoBox, tx: int, ty: int)
    requires ref.affine.a != 0.0 && ref.affine.e != 0.0
    requires ShiftedBy(g, ref, tx, ty)
    ensures BoundingBoxInPixelDomain(g, ref)
         == Ok(BoundingBox(tx as real, ty as real, (tx + g.width) as real, (ty + g.height) as real))
  {
    var R := ref.affine;
    RelativeTransform(R, g.affine);
    assert g.affine.a / R.a == 1.0;
    assert g.affine.e / R.e == 1.0;
    assert (g.affine.c - R.c) / R.a == tx as real by {
      assert g.affine.c - R.c == R.a * (tx as real);
    }
    assert (g.affine.f - R.f) / R.e == ty as real by {
      assert g.affine.f - R.f == R.e * (ty as real);
    }
  }

  /** A grid is accepted against a reference exactly when both share a CRS,
      the reference is invertible and some whole-pixel shift maps one grid
      onto the other. */
  lemma PixelDomainOkIffShifted(g: GeoBox, ref: GeoBox)
    ensures BoundingBoxInPixelDomain(g, ref).Ok?
        <==> ref.affine.a != 0.0 && ref.affine.e != 0.0 && exists tx: int, ty: int :: ShiftedBy(g, ref, tx, ty)
  {
    var r := BoundingBoxInPixelDomain(g, ref);
    if r.Ok? {
      var tx := r.value.left.Floor;
      var ty := r.value.bottom.Floor;
      assert ShiftedBy(g, ref, tx, ty);
    }
    if ref.affine.a != 0.0 && ref.affine.e != 0.0 && exists tx: int, ty: int :: ShiftedBy(g, ref, tx, ty) {
      var tx: int, ty: int :| ShiftedBy(g, ref, tx, ty);
      PixelDomainOfShift(g, ref, tx, ty);
    }
  }

  /** Against itself an invertible grid is the box (0, 0, width, height). */
  lemma PixelDomainOfSelf(g: GeoBox)
    requires g.affine.a != 0.0 && g.affine.e != 0.0
    ensures BoundingBoxInPixelDomain(g, g) == Ok(BoundingBox(0.0, 0.0, g.width as real, g.height as real))
  {
    TranslateZero(g.affine);
    PixelDomainOfShift(g, g, 0, 0);
  }

  /** A buffered grid, seen from its parent, extends nx pixels left and
      right and ny pixels below and above the parent's pixel box. */
  lemma BufferedInParentDomain(g: GeoBox, ybuff: real, xbuff: real)
    requires g.affine.a != 0.0 && g.affine.e != 0.0
    ensures var ny := RoundToRes(ybuff, g.affine.e);
      var nx := RoundToRes(xbuff, g.affine.a);
      BoundingBoxInPixelDomain(Geo.Buffered(g, ybuff, xbuff).value, g)
        == Ok(BoundingBox(-nx as real, -ny as real, (g.width + nx) as real, (g.height + ny) as real))
  {
    var ny := RoundToRes(ybuff, g.affine.e);
    var nx := RoundToRes(xbuff, g.affine.a);
    var b := Geo.Buffered(g, ybuff, xbuff).value;
    assert b.affine == Translate(g.affine, -nx as real, -ny as real);
    PixelDomainOfShift(b, g, -nx, -ny);
  }

  /** A crop, seen from its parent, is the normalised window itself:
      columns x0..x1 and rows y0..y1. */
  lemma CropInParentDomain(g: GeoBox, roi: Roi)
    requires g.affine.a != 0.0 && g.affine.e != 0.0
    requires Crop(g, roi).Ok?
    ensures var ss := RoiSlices(roi);
      var ys := NormaliseSlice(ss[0], g.height);
      var xs := NormaliseSlice(ss[1], g.width);
      BoundingBoxInPixelDomain(Crop(g, roi).value, g)
        == Ok(BoundingBox(xs.start as real, ys.start as real, xs.stop as real, ys.stop as real))
  {
    var ss := RoiSlices(roi);
    var ys := NormaliseSlice(ss[0], g.height);
    var xs := NormaliseSlice(ss[1], g.width);
    var c := Crop(g, roi).value;
    assert c.affine == Translate(g.affine, xs.start as real, ys.start as real);
    PixelDomainOfShift(c, g, xs.start, ys.start);
  }

  // ---------------------------------------------------------------------
  // The generator fed to bbox_union / bbox_intersection

  /** The pixel boxes of all grids against one reference, in order; the
      first grid that fails stops the stream with its error. */
  function PixelBoxes(gs: seq<GeoBox>, ref: GeoBox): (r: Result<seq<BoundingBox>>)
    ensures r.Ok? <==> forall i :: 0 <= i < |gs| ==> BoundingBoxInPixelDomain(gs[i], ref).Ok?
    ensures r.Ok? ==> |r.value| == |gs|
    ensures r.Ok? ==> forall i :: 0 <= i < |gs| ==> BoundingBoxInPixelDomain(gs[i], ref) == Ok(r.value[i])
    ensures r.Err? ==> exists i :: 0 <= i < |gs| && BoundingBoxInPixelDomain(gs[i], ref) == Err(r.error)
                                   && (forall j :: 0 <= j < i ==> BoundingBoxInPixelDomain(gs[j], ref).Ok?)
  {
    if |gs| == 0 then Ok([])
    else
      match BoundingBoxInPixelDomain(gs[0], ref)
      case Err(e) => Err(e)
      case Ok(b) =>
        match PixelBoxes(gs[1..], ref)
        case Err(e) =>
          assert forall i :: 1 <= i < |gs| ==> gs[i] == gs[1..][i - 1];
          Err(e)
        case Ok(bs) =>
          assert forall i :: 1 <= i < |gs| ==> gs[i] == gs[1..][i - 1];
          Ok([b] + bs)
  }

  /** Every pixel box in the stream is integral. */
  lemma PixelBoxesIntegral(gs: seq<GeoBox>, ref: GeoBox)
    requires PixelBoxes(gs, ref).Ok?
    ensures forall i :: 0 <= i < |gs| ==> PixelBoxOf(PixelBoxes(gs, ref).value[i], gs[i])
  {
    var bbs := PixelBoxes(gs, ref).value;
    forall i | 0 <= i < |gs| ensures PixelBoxOf(bbs[i], gs[i]) {
      assert BoundingBoxInPixelDomain(gs[i], ref) == Ok(bbs[i]);
    }
  }

  /** All four corners of a pixel box are integral. */
  lemma PixelBoxCorners(bb: BoundingBox, g: GeoBox)
    requires PixelBoxOf(bb, g)
    ensures IsInt(bb.left) && IsInt(bb.bottom) && IsInt(bb.right) && IsInt(bb.top)
  {
    assert bb.right == (bb.left.Floor + g.width) as real;
    assert bb.top == (bb.bottom.Floor + g.height) as real;
  }

  /** The grid covering a pixel box of the reference: moved to the box's
      lower corner, with the box's width and height. */
  function GridOver(ref: GeoBox, bb: BoundingBox): (r: GeoBox)
    ensures r.crs == ref.crs && Resolution(r) == Resolution(ref)
    ensures Origin(r) == ApplyGrid(ref.affine, Point(bb.left, bb.bottom))
  {
    GeoBox((bb.right - bb.left).Floor, (bb.top - bb.bottom).Floor, Translate(ref.affine, bb.left, bb.bottom), ref.crs)
  }

  /** For a box with integral corners the grid over it has exactly that box
      as its pixel box. */
  lemma GridOverPixelBox(ref: GeoBox, bb: BoundingBox)
    requires ref.affine.a != 0.0 && ref.affine.e != 0.0
    requires IsInt(bb.left) && IsInt(bb.bottom) && IsInt(bb.right) && IsInt(bb.top)
    ensures BoundingBoxInPixelDomain(GridOver(ref, bb), ref) == Ok(bb)
  {
    var l := bb.left.Floor;
    var b := bb.bottom.Floor;
    var g := GridOver(ref, bb);
    assert g.width == bb.right.Floor - l;
    assert g.height == bb.top.Floor - b;
    assert ShiftedBy(g, ref, l, b);
    PixelDomainOfShift(g, ref, l, b);
  }

  // ---------------------------------------------------------------------
  // geobox_union_conservative

  /** `geobox_union_conservative(geoboxes)`: an empty list raises; otherwise
      the first grid is the reference, every grid's pixel box against it is
      folded with bbox_union, and the result is the reference grid over the
      union box. */
  function UnionConservative(gs: seq<GeoBox>): (r: Result<GeoBox>)
    ensures |gs| == 0 ==> r == Err(NoGeoboxes)
    ensures |gs| > 0 ==> (r.Ok? <==> PixelBoxes(gs, gs[0]).Ok?)
    ensures |gs| > 0 && r.Err? ==> PixelBoxes(gs, gs[0]) == Err(r.error)
    ensures r.Ok? ==> r.value.crs == gs[0].crs && Resolution(r.value) == Resolution(gs[0])
  {
    if |gs| == 0 then Err(NoGeoboxes)
    else
      var ref := gs[0];
      match PixelBoxes(gs, ref)
      case Err(e) => Err(e)
      case Ok(bbs) =>
        UnionOfEncloses(bbs);
        Ok(GridOver(ref, UnionOf(bbs).ToBox()))
  }

  /** The union box has integral corners, each taken from some input box. */
  lemma UnionBoxIntegral(gs: seq<GeoBox>, ref: GeoBox)
    requires |gs| > 0 && PixelBoxes(gs, ref).Ok?
    ensures var bbs := PixelBoxes(gs, ref).value;
      UnionOf(bbs).IsFinite()
      && var u := UnionOf(bbs).ToBox();
      IsInt(u.left) && IsInt(u.bottom) && IsInt(u.right) && IsInt(u.top)
  {
    var bbs := PixelBoxes(gs, ref).value;
    PixelBoxesIntegral(gs, ref);
    UnionOfEncloses(bbs);
    var u := UnionOf(bbs);
    var i0 :| 0 <= i0 < |bbs| && u.left.v == bbs[i0].left;
    var i1 :| 0 <= i1 < |bbs| && u.bottom.v == bbs[i1].bottom;
    var i2 :| 0 <= i2 < |bbs| && u.right.v == bbs[i2].right;
    var i3 :| 0 <= i3 < |bbs| && u.top.v == bbs[i3].top;
    PixelBoxCorners(bbs[i0], gs[i0]);
    PixelBoxCorners(bbs[i1], gs[i1]);
    PixelBoxCorners(bbs[i2], gs[i2]);
    PixelBoxCorners(bbs[i3], gs[i3]);
  }

  /** The union grid lies on the reference grid, its pixel box is the
      bbox_union of the inputs' pixel boxes, so it encloses every input,
      and it is the least such box. */
  lemma {:induction false} UnionEnclosesInputs(gs: seq<GeoBox>)
    requires UnionConservative(gs).Ok?
    ensures var bbs := PixelBoxes(gs, gs[0]).value;
      var u := UnionConservative(gs).value;
      && UnionOf(bbs).IsFinite()
      && BoundingBoxInPixelDomain(u, gs[0]) == Ok(UnionOf(bbs).ToBox())
      && (forall i :: 0 <= i < |gs| ==> Encloses(UnionOf(bbs).ToBox(), bbs[i]))
      && (forall outer :: (forall i :: 0 <= i < |gs| ==> Encloses(outer, bbs[i])) ==> Encloses(outer, UnionOf(bbs).ToBox()))
  {
    var ref := gs[0];
    var bbs := PixelBoxes(gs, ref).value;
    assert BoundingBoxInPixelDomain(gs[0], ref).Ok?;
    UnionBoxIntegral(gs, ref);
    UnionOfEncloses(bbs);
    GridOverPixelBox(ref, UnionOf(bbs).ToBox());
    forall outer | forall i :: 0 <= i < |gs| ==> Encloses(outer, bbs[i])
      ensures Encloses(outer, UnionOf(bbs).ToBox())
    {
      UnionIsLeast(bbs, outer);
    }
  }

  // ---------------------------------------------------------------------
  // geobox_intersection_conservative

  /** The standardised empty box: a crossed x-range collapses onto its left
      edge, then a crossed y-range onto its bottom edge. */
  function Standardise(bb: BoundingBox): (r: BoundingBox)
    ensures r.left == bb.left && r.bottom == bb.bottom
    ensures Ordered(r)
    ensures r.right == (if bb.left > bb.right then bb.left else bb.right)
    ensures r.top == (if bb.bottom > bb.top then bb.bottom else bb.top)
  {
    var b1 := if bb.left > bb.right then BoundingBox(bb.left, bb.bottom, bb.left, bb.top) else bb;
    if b1.bottom > b1.top then BoundingBox(b1.left, b1.bottom, b1.right, b1.bottom) else b1
  }

  /** `geobox_intersection_conservative(geoboxes)`: as the union, folding
      with bbox_intersection and standardising an empty result. */
  function IntersectionConservative(gs: seq<GeoBox>): (r: Result<GeoBox>)
    ensures |gs| == 0 ==> r == Err(NoGeoboxes)
    ensures |gs| > 0 ==> (r.Ok? <==> PixelBoxes(gs, gs[0]).Ok?)
    ensures |gs| > 0 && r.Err? ==> PixelBoxes(gs, gs[0]) == Err(r.error)
    ensures r.Ok? ==> r.value.crs == gs[0].crs && Resolution(r.value) == Resolution(gs[0])
  {
    if |gs| == 0 then Err(NoGeoboxes)
    else
      var ref := gs[0];
      match PixelBoxes(gs, ref)
      case Err(e) => Err(e)
      case Ok(bbs) =>
        IntersectionOfInside(bbs);
        Ok(GridOver(ref, Standardise(IntersectionOf(bbs).ToBox())))
  }

  /** The intersection box has integral corners. */
  lemma IntersectionBoxIntegral(gs: seq<GeoBox>, ref: GeoBox)
    requires |gs| > 0 && PixelBoxes(gs, ref).Ok?
    ensures var bbs := PixelBoxes(gs, ref).value;
      IntersectionOf(bbs).IsFinite()
      && var u := IntersectionOf(bbs).ToBox();
      IsInt(u.left) && IsInt(u.bottom) && IsInt(u.right) && IsInt(u.top)
  {
    var bbs := PixelBoxes(gs, ref).value;
    PixelBoxesIntegral(gs, ref);
    IntersectionOfInside(bbs);
    var u := IntersectionOf(bbs);
    var i0 :| 0 <= i0 < |bbs| && u.left.v == bbs[i0].left;
    var i1 :| 0 <= i1 < |bbs| && u.bottom.v == bbs[i1].bottom;
    var i2 :| 0 <= i2 < |bbs| && u.right.v == bbs[i2].right;
    var i3 :| 0 <= i3 < |bbs| && u.top.v == bbs[i3].top;
    PixelBoxCorners(bbs[i0], gs[i0]);
    PixelBoxCorners(bbs[i1], gs[i1]);
    PixelBoxCorners(bbs[i2], gs[i2]);
    PixelBoxCorners(bbs[i3], gs[i3]);
  }

  /** The intersection grid lies on the reference grid: its pixel box is
      the standardised bbox_intersection of the inputs' pixel boxes. */
  lemma IntersectionPixelBox(gs: seq<GeoBox>)
    requires IntersectionConservative(gs).Ok?
    ensures IntersectionOf(PixelBoxes(gs, gs[0]).value).IsFinite()
    ensures BoundingBoxInPixelDomain(IntersectionConservative(gs).value, gs[0])
         == Ok(Standardise(IntersectionOf(PixelBoxes(gs, gs[0]).value).ToBox()))
  {
    var ref := gs[0];
    assert BoundingBoxInPixelDomain(gs[0], ref).Ok?;
    IntersectionBoxIntegral(gs, ref);
    var w := IntersectionOf(PixelBoxes(gs, ref).value).ToBox();
    GridOverPixelBox(ref, Standardise(w));
  }

  /** Before standardisation the intersection box lies inside every
      input's pixel box and is the greatest such box. */
  lemma IntersectionInsideInputs(gs: seq<GeoBox>)
    requires IntersectionConservative(gs).Ok?
    ensures var bbs := PixelBoxes(gs, gs[0]).value;
      && IntersectionOf(bbs).IsFinite()
      && (forall i :: 0 <= i < |gs| ==> Encloses(bbs[i], IntersectionOf(bbs).ToBox()))
      && (forall inner :: (forall i :: 0 <= i < |gs| ==> Encloses(bbs[i], inner)) ==> Encloses(IntersectionOf(bbs).ToBox(), inner))
  {
    var bbs := PixelBoxes(gs, gs[0]).value;
    IntersectionOfInside(bbs);
    forall inner | forall i :: 0 <= i < |gs| ==> Encloses(bbs[i], inner)
      ensures Encloses(IntersectionOf(bbs).ToBox(), inner)
    {
      IntersectionIsGreatest(bbs, inner);
    }
  }

  /** The standardisation keeps the intersection grid's size non-negative,
      and the grid is empty exactly when the inputs' pixel boxes do not
      overlap with positive area. */
  lemma IntersectionSize(gs: seq<GeoBox>)
    requires IntersectionConservative(gs).Ok?
    ensures IntersectionOf(PixelBoxes(gs, gs[0]).value).IsFinite()
    ensures var v := IntersectionConservative(gs).value;
      v.width >= 0 && v.height >= 0
    ensures var v := IntersectionConservative(gs).value;
      var w := IntersectionOf(PixelBoxes(gs, gs[0]).value).ToBox();
      IsEmpty(v) <==> w.left >= w.right || w.bottom >= w.top
  {
    IntersectionPixelBox(gs);
  }

  // ---------------------------------------------------------------------
  // GeoBox.__or__ / GeoBox.__and__

  /** `g | o`: the conservative union of the pair, with g as reference. */
  function Or(g: GeoBox, o: GeoBox): (r: Result<GeoBox>)
    ensures r.Ok? <==> BoundingBoxInPixelDomain(g, g).Ok? && BoundingBoxInPixelDomain(o, g).Ok?
    ensures r.Ok? ==> r.value.crs == g.crs && Resolution(r.value) == Resolution(g)
  {
    UnionConservative([g, o])
  }

  /** `g & o`: the conservative intersection of the pair. */
  function And(g: GeoBox, o: GeoBox): (r: Result<GeoBox>)
    ensures r.Ok? <==> BoundingBoxInPixelDomain(g, g).Ok? && BoundingBoxInPixelDomain(o, g).Ok?
    ensures r.Ok? ==> r.value.crs == g.crs && Resolution(r.value) == Resolution(g)
  {
    IntersectionConservative([g, o])
  }

  /** The stream for a pair is the pair's two pixel boxes. */
  lemma PixelBoxesPair(g: GeoBox, o: GeoBox, b: BoundingBox, c: BoundingBox)
    requires BoundingBoxInPixelDomain(g, g) == Ok(b) && BoundingBoxInPixelDomain(o, g) == Ok(c)
    ensures PixelBoxes([g, o], g) == Ok([b, c])
  {
    var ps := PixelBoxes([g, o], g);
    assert [g, o][0] == g && [g, o][1] == o;
    assert ps.Ok?;
    assert ps.value[0] == b && ps.value[1] == c;
    assert ps.value == [b, c];
  }

  /** `g | o` and `g & o` on compatible grids: the grids over the edge-wise
      minimum and maximum of the two pixel boxes (standardised for `&`). */
  lemma OrAndOfCompatible(g: GeoBox, o: GeoBox, b: BoundingBox, c: BoundingBox)
    requires BoundingBoxInPixelDomain(g, g) == Ok(b) && BoundingBoxInPixelDomain(o, g) == Ok(c)
    ensures Or(g, o) == Ok(GridOver(g, BoundingBox(Lo(b.left, c.left), Lo(b.bottom, c.bottom), Hi(b.right, c.right), Hi(b.top, c.top))))
    ensures And(g, o) == Ok(GridOver(g, Standardise(BoundingBox(Hi(b.left, c.left), Hi(b.bottom, c.bottom), Lo(b.right, c.right), Lo(b.top, c.top)))))
  {
    PixelBoxesPair(g, o, b, c);
    FoldsOfPair(b, c);
  }

  /** When the pair does not combine, `g | o` and `g & o` both raise the
      first failure: g against itself, then o against g. */
  lemma OrAndOfIncompatible(g: GeoBox, o: GeoBox)
    ensures var e := if BoundingBoxInPixelDomain(g, g).Err? then BoundingBoxInPixelDomain(g, g) else BoundingBoxInPixelDomain(o, g);
      e.Err? ==> Or(g, o) == Err(e.error) && And(g, o) == Err(e.error)
  {
    var e := if BoundingBoxInPixelDomain(g, g).Err? then BoundingBoxInPixelDomain(g, g) else BoundingBoxInPixelDomain(o, g);
    if e.Err? {
      var ps := PixelBoxes([g, o], g);
      assert [g, o][0] == g && [g, o][1] == o;
      assert ps.Err?;
      var i :| 0 <= i < 2 && BoundingBoxInPixelDomain([g, o][i], g) == Err(ps.error)
                && (forall j :: 0 <= j < i ==> BoundingBoxInPixelDomain([g, o][j], g).Ok?);
      if i == 1 {
        assert BoundingBoxInPixelDomain([g, o][0], g).Ok?;
      }
    }
  }

  /** `g | g` is g for every invertible grid. */
  lemma OrIdempotent(g: GeoBox)
    requires g.affine.a != 0.0 && g.affine.e != 0.0
    ensures Or(g, g) == Ok(g)
  {
    PixelDomainOfSelf(g);
    var b := BoundingBox(0.0, 0.0, g.width as real, g.height as real);
    OrAndOfCompatible(g, g, b, b);
    assert GridOver(g, b) == GeoBox(g.width, g.height, Translate(g.affine, 0.0, 0.0), g.crs);
    TranslateZero(g.affine);
  }

  /** `g & g` is g for every invertible grid of non-negative size. */
  lemma AndIdempotent(g: GeoBox)
    requires g.affine.a != 0.0 && g.affine.e != 0.0
    requires g.width >= 0 && g.height >= 0
    ensures And(g, g) == Ok(g)
  {
    PixelDomainOfSelf(g);
    var b := BoundingBox(0.0, 0.0, g.width as real, g.height as real);
    OrAndOfCompatible(g, g, b, b);
    assert Standardise(b) == b;
    assert GridOver(g, b) == GeoBox(g.width, g.height, Translate(g.affine, 0.0, 0.0), g.crs);
    TranslateZero(g.affine);
  }

  /** A grid and its copy moved k >= width pixels along x do not overlap:
      their union is k + width columns wide at the first grid's origin, and
      their intersection is the standardised empty grid, zero columns wide,
      at the copy's origin. */
  lemma DisjointCopies(g: GeoBox, k: int)
    requires g.affine.a != 0.0 && g.affine.e != 0.0
    requires g.width >= 0 && g.height >= 0 && k >= g.width
    ensures var o := GeoBox(g.width, g.height, Translate(g.affine, k as real, 0.0), g.crs);
      && Or(g, o) == Ok(GeoBox(k + g.width, g.height, g.affine, g.crs))
      && And(g, o) == Ok(GeoBox(0, g.height, o.affine, g.crs))
  {
    var o := GeoBox(g.width, g.height, Translate(g.affine, k as real, 0.0), g.crs);
    PixelDomainOfSelf(g);
    PixelDomainOfShift(o, g, k, 0);
    var b := BoundingBox(0.0, 0.0, g.width as real, g.height as real);
    var c := BoundingBox(k as real, 0.0, (k + g.width) as real, g.height as real);
    OrAndOfCompatible(g, o, b, c);
    var u := GridOver(g, BoundingBox(0.0, 0.0, (k + g.width) as real, g.height as real));
    TranslateZero(g.affine);
    assert u.width == k + g.width && u.height == g.height && u.affine == g.affine;
    var s := Standardise(BoundingBox(k as real, 0.0, g.width as real, g.height as real));
    assert s == BoundingBox(k as real, 0.0, k as real, g.height as real);
    var v := GridOver(g, s);
    assert v.width == 0 && v.height == g.height && v.affine == o.affine;
  }

  /** A copy moved by half a pixel does not share the grid. */
  lemma HalfPixelShiftIncompatible(g: GeoBox)
    requires g.affine.a != 0.0 && g.affine.e != 0.0
    ensures var o := GeoBox(g.width, g.height, Translate(g.affine, 0.5, 0.0), g.crs);
      Or(g, o) == Err(IncompatibleGrids) && And(g, o) == Err(IncompatibleGrids)
  {
    var o := GeoBox(g.width, g.height, Translate(g.affine, 0.5, 0.0), g.crs);
    PixelDomainOfSelf(g);
    RelativeTransform(g.affine, o.affine);
    assert (o.affine.c - g.affine.c) / g.affine.a == 0.5;
    assert !IsInt(0.5);
    OrAndOfIncompatible(g, o);
  }

  /** A grid with twice the pixel width does not share the grid. */
  lemma CoarserGridIncompatible(g: GeoBox)
    requires g.affine.a != 0.0 && g.affine.e != 0.0
    ensures var o := GeoBox(g.width, g.height, ScaleBy(g.affine, 2.0, 1.0), g.crs);
      Or(g, o) == Err(IncompatibleGrids) && And(g, o) == Err(IncompatibleGrids)
  {
    var o := GeoBox(g.width, g.height, ScaleBy(g.affine, 2.0, 1.0), g.crs);
    PixelDomainOfSelf(g);
    RelativeTransform(g.affine, o.affine);
    assert o.affine.a / g.affine.a == 2.0;
    OrAndOfIncompatible(g, o);
  }

  /** Grids in different CRSs do not combine, whatever their affines. */
  lemma CrsMismatchIncompatible(g: GeoBox, o: GeoBox)
    requires g.affine.a != 0.0 && g.affine.e != 0.0 && o.crs != g.crs
    ensures Or(g, o) == Err(CrsMismatch) && And(g, o) == Err(CrsMismatch)
  {
    PixelDomainOfSelf(g);
    OrAndOfIncompatible(g, o);
  }
}
