/** GeoBox: an immutable rectangular pixel grid (width, height, an
    axis-aligned affine from pixel to world coordinates, and a CRS), with the
    operations that derive new grids from it. */
module Geo {
  import opened Results
  import opened Numeric
  import opened Affines
  import opened Bounds
  import opened GridAlignment

  /** A coordinate reference system.  `id` names the equivalence class of
      `CRS.__eq__` (two CRSs are equal exactly when their ids are), not the
      text the CRS was built from. */
  datatype CRS = CRS(id: string)

  /** The fields the constructor stores.  Widths and heights are Python ints:
      nothing in the code keeps them non-negative. */
  datatype GeoBox = GeoBox(width: int, height: int, affine: GridAffine, crs: CRS)

  /** `GeoBox(width, height, affine, crs)`: the constructor asserts that the
      affine has no rotation or shear terms. */
  function NewGeoBox(width: int, height: int, affine: Affine, crs: CRS): (r: Result<GeoBox>)
    ensures r.Ok? <==> affine.b == 0.0 && affine.d == 0.0
    ensures r.Ok? ==> r.value.width == width && r.value.height == height && ToAffine(r.value.affine) == affine && r.value.crs == crs
    ensures r.Err? ==> r.error == NotAxisAligned
  {
    if AxisAligned(affine) then Ok(GeoBox(width, height, FromAffine(affine), crs)) else Err(NotAxisAligned)
  }

  /** `shape`: (height, width). */
  function Shape(g: GeoBox): (int, int) {
    (g.height, g.width)
  }

  /** `resolution`: the signed pixel size (y, x), i.e. (e, a). */
  function Resolution(g: GeoBox): (real, real) {
    (g.affine.e, g.affine.a)
  }

  /** World coordinates of the grid's pixel corner (0, 0). */
  function Origin(g: GeoBox): Point {
    Point(g.affine.c, g.affine.f)
  }

  /** `is_empty`. */
  predicate IsEmpty(g: GeoBox) {
    g.width == 0 || g.height == 0
  }

  /** `__bool__`: a grid is truthy exactly when it is not empty, so when it
      has pixels along both axes (or a negative size, which the code does
      not rule out). */
  predicate NonEmpty(g: GeoBox): (b: bool)
    ensures b <==> g.width != 0 && g.height != 0
  {
    !IsEmpty(g)
  }

  /** `alignment`: the origin's offset from the zero line, modulo the pixel
      size, per axis (y, x); the remainder raises on a zero resolution. */
  function Alignment(g: GeoBox): (r: Result<(real, real)>)
    ensures r.Ok? <==> g.affine.a != 0.0 && g.affine.e != 0.0
    ensures r.Err? ==> r.error == ZeroDivision
    ensures r.Ok? ==> 0.0 <= r.value.0 < Abs(g.affine.e) && 0.0 <= r.value.1 < Abs(g.affine.a)
    ensures r.Ok? ==> IsInt((g.affine.f - r.value.0) / Abs(g.affine.e)) && IsInt((g.affine.c - r.value.1) / Abs(g.affine.a))
  {
    if g.affine.e == 0.0 || g.affine.a == 0.0 then Err(ZeroDivision)
    else Ok((FMod(g.affine.f, Abs(g.affine.e)), FMod(g.affine.c, Abs(g.affine.a))))
  }

  /** `__eq__`: same shape, same affine coefficients, same CRS. */
  predicate Equal(g: GeoBox, h: GeoBox) {
    Shape(g) == Shape(h) && g.affine == h.affine && g.crs == h.crs
  }

  /** Equality compares every stored field, so it is exactly identity of
      the modelled values. */
  lemma EqualIsIdentity(g: GeoBox, h: GeoBox)
    ensures Equal(g, h) <==> g == h
  {
    if Equal(g, h) {
      assert g.width == Shape(g).1 == Shape(h).1 == h.width;
      assert g.height == Shape(g).0 == Shape(h).0 == h.height;
    }
  }

  // ---------------------------------------------------------------------
  // from_geopolygon

  /** The per-axis covering `_align_pix` promises: an ascending axis starts
      at or below `lo` and reaches `hi` within a tenth of a pixel; a
      descending one starts at or above `hi` and reaches down to `lo`. */
  predicate Covers(origin: real, count: int, res: real, lo: real, hi: real) {
    if res > 0.0 then origin <= lo && origin + count as real * res >= hi - 0.1 * res
    else origin >= hi && origin + count as real * res <= lo - 0.1 * res
  }

  /** A covering is tight when the origin lies less than one pixel outside
      the interval's anchoring edge, and one pixel fewer would fall short of
      the far edge by more than a tenth of a pixel. */
  predicate Tight(origin: real, count: int, res: real, lo: real, hi: real) {
    if res > 0.0 then lo < origin + res && (count == 1 || origin + (count - 1) as real * res < hi - 0.1 * res)
    else origin + res < hi && (count == 1 || origin + (count - 1) as real * res > lo - 0.1 * res)
  }

  lemma AlignPixCovers(lo: real, hi: real, res: real, off: real)
    requires res != 0.0
    ensures var r := AlignPix(lo, hi, res, off);
      Covers(r.0, r.1, res, lo, hi) && Tight(r.0, r.1, res, lo, hi) && IsInt((r.0 - off) / Abs(res))
  {
    var r := AlignPix(lo, hi, res, off);
    if res > 0.0 {
      AlignPixAscending(lo, hi, res, off);
    } else {
      AlignPixDescending(lo, hi, res, off);
      assert r.0 - r.1 as real * -res == r.0 + r.1 as real * res;
      assert r.0 - (r.1 - 1) as real * -res == r.0 + (r.1 - 1) as real * res;
    }
  }

  /** Equal remainders for values a whole number of periods apart. */
  lemma FModCongruent(x: real, y: real, m: real)
    requires m > 0.0 && IsInt((y - x) / m)
    ensures FMod(y, m) == FMod(x, m)
  {
    var k := ((y - x) / m).Floor;
    assert y == x + k as real * m by {
      assert (y - x) / m * m == y - x;
    }
    var q := x / m;
    assert y / m == q + k as real by {
      assert (x + k as real * m) / m == x / m + k as real;
    }
    assert (y / m).Floor == q.Floor + k;
    calc {
      FMod(y, m);
      y - (q.Floor + k) as real * m;
      x + k as real * m - (q.Floor as real * m + k as real * m);
      FMod(x, m);
    }
  }

  /** The alignment step of `from_geopolygon(geopolygon, resolution, crs,
      align)`, given the bounding box of the polygon already in `crs`:
      resolution and align are (y, x) pairs, align defaults to (0, 0) and
      must lie in [0, |res|] on each axis. */
  function FromBoundingBox(bbox: BoundingBox, resolution: (real, real), crs: CRS, align: Option<(real, real)>): (r: Result<GeoBox>)
  {
    var al := align.GetOr((0.0, 0.0));
    if !(0.0 <= al.1 <= Abs(resolution.1)) || !(0.0 <= al.0 <= Abs(resolution.0)) then Err(AlignOutOfRange)
    else if resolution.1 == 0.0 || resolution.0 == 0.0 then Err(ZeroDivision)
    else
      var xs := AlignPix(bbox.left, bbox.right, resolution.1, al.1);
      var ys := AlignPix(bbox.bottom, bbox.top, resolution.0, al.0);
      Ok(GeoBox(xs.1, ys.1, TranslationScale(xs.0, ys.0, resolution.1, resolution.0), crs))
  }

  /** A grid built from a bounding box fails only on an out-of-range
      alignment or a zero resolution; otherwise it has the requested
      resolution and CRS, at least one pixel per axis, covers the box on both
      axes with the fewest pixels and an origin within a pixel of the box,
      and has the requested alignment. */
  lemma FromBoundingBoxCovers(bbox: BoundingBox, resolution: (real, real), crs: CRS, align: Option<(real, real)>)
    ensures var al := align.GetOr((0.0, 0.0));
      var r := FromBoundingBox(bbox, resolution, crs, align);
      && (r.Err? && r.error == AlignOutOfRange <==> !(0.0 <= al.1 <= Abs(resolution.1) && 0.0 <= al.0 <= Abs(resolution.0)))
      && (r.Ok? <==> 0.0 <= al.1 <= Abs(resolution.1) && 0.0 <= al.0 <= Abs(resolution.0) && resolution.0 != 0.0 && resolution.1 != 0.0)
      && (r.Ok? ==>
            && Resolution(r.value) == resolution && r.value.crs == crs
            && r.value.width >= 1 && r.value.height >= 1
            && Covers(r.value.affine.c, r.value.width, resolution.1, bbox.left, bbox.right)
            && Covers(r.value.affine.f, r.value.height, resolution.0, bbox.bottom, bbox.top)
            && Tight(r.value.affine.c, r.value.width, resolution.1, bbox.left, bbox.right)
            && Tight(r.value.affine.f, r.value.height, resolution.0, bbox.bottom, bbox.top)
            && Alignment(r.value) == Ok((FMod(al.0, Abs(resolution.0)), FMod(al.1, Abs(resolution.1)))))
  {
    var al := align.GetOr((0.0, 0.0));
    var r := FromBoundingBox(bbox, resolution, crs, align);
    if r.Ok? {
      var xs := AlignPix(bbox.left, bbox.right, resolution.1, al.1);
      var ys := AlignPix(bbox.bottom, bbox.top, resolution.0, al.0);
      assert r.value == GeoBox(xs.1, ys.1, GridAffine(resolution.1, xs.0, resolution.0, ys.0), crs);
      AlignPixCovers(bbox.left, bbox.right, resolution.1, al.1);
      AlignPixCovers(bbox.bottom, bbox.top, resolution.0, al.0);
      FModCongruent(al.1, xs.0, Abs(resolution.1));
      FModCongruent(al.0, ys.0, Abs(resolution.0));
    }
  }

  /** The alignment step on the `_align_pix` doctests for (20, 30, -10, 0)
      and (20, 30, 10, 0): a box [20, 30] x [20, 30] at 10-unit pixels,
      north-up. */
  lemma FromBoundingBoxExample()
    ensures FromBoundingBox(BoundingBox(20.0, 20.0, 30.0, 30.0), (-10.0, 10.0), CRS("EPSG:3577"), None)
         == Ok(GeoBox(1, 1, GridAffine(10.0, 20.0, -10.0, 30.0), CRS("EPSG:3577")))
  {
    AlignPixExamples();
  }

  // ---------------------------------------------------------------------
  // buffered

  /** `buffered(ybuff, xbuff)`: grow by whole pixels on every side.  The
      world-space amounts are rounded to pixel counts (ny, nx); the grid gains
      2*nx columns and 2*ny rows and its origin moves back by (nx, ny)
      pixels. */
  function Buffered(g: GeoBox, ybuff: real, xbuff: real): (r: Result<GeoBox>)
    ensures r.Ok? <==> g.affine.a != 0.0 && g.affine.e != 0.0
    ensures r.Err? ==> r.error == ZeroDivision
    ensures r.Ok? ==>
      var ny := RoundToRes(ybuff, g.affine.e);
      var nx := RoundToRes(xbuff, g.affine.a);
      && r.value.crs == g.crs && Resolution(r.value) == Resolution(g)
      && r.value.width == g.width + 2 * nx && r.value.height == g.height + 2 * ny
      && Origin(r.value) == ApplyGrid(g.affine, Point(-nx as real, -ny as real))
  {
    if g.affine.e == 0.0 || g.affine.a == 0.0 then Err(ZeroDivision)
    else
      var ny := RoundToRes(ybuff, g.affine.e);
      var nx := RoundToRes(xbuff, g.affine.a);
      Ok(GeoBox(g.width + 2 * nx, g.height + 2 * ny, Translate(g.affine, -nx as real, -ny as real), g.crs))
  }

  // ---------------------------------------------------------------------
  // __getitem__

  /** A Python slice; `step` None and 1 both mean unit step. */
  datatype Slice = Slice(start: Option<int>, stop: Option<int>, step: Option<int>)

  /** The index forms `__getitem__` accepts: an int (a single row), a lone
      slice (rows), or a tuple of slices. */
  datatype Roi = Row(index: int) | Rows(s: Slice) | Slices(slices: seq<Slice>)

  /** A slice after normalisation against an axis size. */
  datatype Span = Span(start: int, stop: int)

  function FullSlice(): Slice {
    Slice(None, None, None)
  }

  /** The first two steps of `__getitem__`: an int i becomes rows i:i+1 and
      a lone slice gets a full column slice. */
  function RoiSlices(roi: Roi): seq<Slice> {
    match roi
    case Row(i) => [Slice(Some(i), Some(i + 1), None), FullSlice()]
    case Rows(s) => [s, FullSlice()]
    case Slices(ss) => ss
  }

  predicate UnitStep(s: Slice) {
    s.step == None || s.step == Some(1)
  }

  /** roi_normalise on one index: a negative index counts from the end. */
  function NormaliseIndex(x: int, n: int): int {
    if x >= 0 then x else n + x
  }

  /** roi_normalise on one slice: an open start is 0, an open stop is n. */
  function NormaliseSlice(s: Slice, n: int): Span {
    Span(NormaliseIndex(s.start.GetOr(0), n), NormaliseIndex(s.stop.GetOr(n), n))
  }

  /** `geobox[roi]`: more than two axes raises ValueError, a non-unit step
      raises NotImplementedError, fewer than two axes fails when the two
      starts are unpacked.  Otherwise the sub-grid covers the normalised
      window (rows then columns): its size is stop - start per axis, its
      origin is the parent's pixel (x0, y0), and the CRS and resolution are
      the parent's. */
  function Crop(g: GeoBox, roi: Roi): (r: Result<GeoBox>)
    ensures var ss := RoiSlices(roi);
      r.Ok? <==> |ss| == 2 && UnitStep(ss[0]) && UnitStep(ss[1])
    ensures var ss := RoiSlices(roi);
      r.Err? ==> r.error == (if |ss| > 2 || forall i :: 0 <= i < |ss| ==> UnitStep(ss[i]) then Not2dSlice else ScalingNotImplemented)
    ensures r.Ok? ==>
      var ss := RoiSlices(roi);
      var ys := NormaliseSlice(ss[0], g.height);
      var xs := NormaliseSlice(ss[1], g.width);
      && r.value.crs == g.crs && Resolution(r.value) == Resolution(g)
      && r.value.width == xs.stop - xs.start && r.value.height == ys.stop - ys.start
      && Origin(r.value) == ApplyGrid(g.affine, Point(xs.start as real, ys.start as real))
  {
    var ss := RoiSlices(roi);
    if |ss| > 2 then Err(Not2dSlice)
    else if exists i :: 0 <= i < |ss| && !UnitStep(ss[i]) then Err(ScalingNotImplemented)
    else if |ss| < 2 then Err(Not2dSlice)
    else
      var ys := NormaliseSlice(ss[0], g.height);
      var xs := NormaliseSlice(ss[1], g.width);
      Ok(GeoBox(xs.stop - xs.start, ys.stop - ys.start, Translate(g.affine, xs.start as real, ys.start as real), g.crs))
  }

  /** Cropping the whole grid, `geobox[0:height, 0:width]` or `geobox[:]`,
      gives the grid back. */
  lemma CropWhole(g: GeoBox)
    requires g.width >= 0 && g.height >= 0
    ensures Crop(g, Slices([Slice(Some(0), Some(g.height), None), Slice(Some(0), Some(g.width), None)])) == Ok(g)
    ensures Crop(g, Rows(FullSlice())) == Ok(g)
  {
    TranslateZero(g.affine);
  }

  /** A non-negative int index selects one full-width row. */
  lemma CropRow(g: GeoBox, i: int)
    requires i >= 0 && g.width >= 0
    ensures Crop(g, Row(i)).Ok?
    ensures Crop(g, Row(i)).value.height == 1 && Crop(g, Row(i)).value.width == g.width
    ensures Origin(Crop(g, Row(i)).value) == ApplyGrid(g.affine, Point(0.0, i as real))
  {
  }

  /** A negative int index is turned into the slice i:i+1 before it is
      normalised, so its stop 0 stays 0 while its start moves to height + i:
      `geobox[-1]` has height 1 - height (-9 on a 10-row grid), not 1. */
  lemma CropNegativeRowAsWritten(g: GeoBox)
    ensures Crop(g, Row(-1)).Ok? && Crop(g, Row(-1)).value.height == 1 - g.height
  {
    var ss := RoiSlices(Row(-1));
    assert UnitStep(ss[0]) && UnitStep(ss[1]);
    assert NormaliseSlice(ss[0], g.height) == Span(g.height - 1, 0);
  }

  /** The evidently intended int index: normalise the row first, as Python
      sequences do, then take that one row. */
  function CropIntended(g: GeoBox, roi: Roi): (r: Result<GeoBox>)
  {
    match roi
    case Row(i) =>
      var row := NormaliseIndex(i, g.height);
      Crop(g, Slices([Slice(Some(row), Some(row + 1), None), FullSlice()]))
    case _ => Crop(g, roi)
  }

  /** With the intended indexing every in-range row index, negative ones
      included, selects exactly one full-width row. */
  lemma CropIntendedRow(g: GeoBox, i: int)
    requires -g.height <= i < g.height && g.width >= 0
    ensures CropIntended(g, Row(i)).Ok?
    ensures CropIntended(g, Row(i)).value.height == 1 && CropIntended(g, Row(i)).value.width == g.width
    ensures Origin(CropIntended(g, Row(i)).value) == ApplyGrid(g.affine, Point(0.0, NormaliseIndex(i, g.height) as real))
  {
  }

  // ---------------------------------------------------------------------
  // scaled_down_geobox

  /** Python's `X // s + (1 if X % s else 0)` for a positive s. */
  function CeilDivInt(x: int, s: int): (q: int)
    requires s > 0
    ensures q * s >= x && (q - 1) * s < x
  {
    x / s + (if x % s != 0 then 1 else 0)
  }

  /** `scaled_down_geobox(src, scaler)`: the grid of the image shrunk by an
      integer factor, padded up to whole output pixels; the pixel size grows
      by the factor and the corner origin stays put. */
  function ScaledDown(g: GeoBox, scaler: int): (r: GeoBox)
    requires scaler > 1
    ensures r.crs == g.crs && Origin(r) == Origin(g)
    ensures Resolution(r).0 == g.affine.e * (scaler as real) && Resolution(r).1 == g.affine.a * (scaler as real)
    ensures r.width * scaler >= g.width && (r.width - 1) * scaler < g.width
    ensures r.height * scaler >= g.height && (r.height - 1) * scaler < g.height
  {
    var H := CeilDivInt(g.height, scaler);
    var W := CeilDivInt(g.width, scaler);
    var s := scaler as real;
    var G := ScaleBy(g.affine, s, s);
    GeoBox(W, H, G, g.crs)
  }

  /** The docstring's example: a 5x4 image scaled down by 2 is 3x2. */
  lemma ScaledDownExample(g: GeoBox)
    requires Shape(g) == (5, 4)
    ensures Shape(ScaledDown(g, 2)) == (3, 2)
  {
  }
}
