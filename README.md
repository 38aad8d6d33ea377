# Pixel-grid algebra of `datacube.utils.geometry`

A Dafny model of the grid arithmetic in Open Data Cube's
`datacube/utils/geometry/_base.py`. The model covers:

- `BoundingBox`: `buffered`, `width`/`height`, `points` and `transform`.
- The snapping helpers `_align_pix` and `_round_to_res`.
- The immutable `GeoBox` grid:
  - the axis-aligned constructor;
  - the alignment step of `from_geopolygon`;
  - `buffered`, cropping with `__getitem__`;
  - `shape`, `resolution`, `alignment`, `is_empty` and `__eq__`;
  - `|` and `&`.
- Reconciling grids:
  - `bounding_box_in_pixel_domain`;
  - the `bbox_union` and `bbox_intersection` loops;
  - `geobox_union_conservative` and `geobox_intersection_conservative`, including the standardised empty box;
  - `scaled_down_geobox`.
- `ensure_2d`, which cuts GeoJSON coordinates down to two dimensions.

Modules, one per file:

| file | module | contents |
|---|---|---|
| `results.dfy` | `Results` | the error cases, `Result` and `Option` |
| `numeric.dfy` | `Numeric` | `math.ceil`, Python's float `%`, integrality, small real-arithmetic lemmas |
| `affines.dfy` | `Affines` | the six-coefficient affine of the `affine` package; the axis-aligned record `GridAffine(a, c, e, f)` (`b = d = 0`) that GeoBox stores; translation, scaling, inversion and composition on it |
| `bounds.dfy` | `Bounds` | `BoundingBox` and the two bbox folds (a function each, and the loop as a method) |
| `grid_alignment.dfy` | `GridAlignment` | `_align_pix`, `_round_to_res` |
| `geobox.dfy` | `Geo` | `GeoBox` and its operations |
| `pixel_domain.dfy` | `PixelDomain` | pixel-domain boxes, conservative union and intersection, `|` and `&` |
| `coords2d.dfy` | `Coords2d` | `ensure_2d` |

Modelling choices:

- Python floats are modelled as exact reals.
  - `math.floor` is `.Floor`; `math.ceil(x)` is `-((-x).Floor)`.
  - Float `%` with a positive divisor is the floored remainder.
  - Python ints are Dafny `int`. Their `//` and `%` with a positive divisor agree with Dafny's.
- A CRS is an opaque identifier that names the equivalence class of `CRS.__eq__` (`datacube/utils/geometry/_base.py:201-212`), which compares EPSG codes when both sides have one and the pyproj objects otherwise. Two CRSs are equal exactly when their identifiers are. The text a CRS was built from is not modelled.
- Errors are `Result` values, and each error keeps the order in which the code raises it.
  - The Python code raises `ValueError` for a CRS mismatch, for incompatible grids and for an empty list of GeoBoxes. The model keeps these as separate `Error` cases so a contract can say which one occurs. The source defines `CRSMismatchError` (`datacube/utils/geometry/_base.py:239`), but `bounding_box_in_pixel_domain` raises a plain `ValueError` for both of its failures (:954, :960), and so do the conservative union and intersection on an empty list (:969, :986).
  - A zero resolution makes Python divide by zero, so the model returns `ZeroDivision`.
  - Inverting a singular reference affine returns `NotInvertible`.
  - An align value out of range fails the `assert` in `from_geopolygon`, and the model returns `AlignOutOfRange`.
- Pixel boxes are `BoundingBox` values over reals whose corners are integral.
  - Such a box turns back into a GeoBox size as `(right - left).Floor`. This is exact, because the corners are integral.
- `bbox_union` and `bbox_intersection` start from `±inf`, so a fold over an empty stream returns infinite edges. The model keeps these infinities, so an empty stream is modelled rather than excluded.
- `roi_normalise` and `roi_shape` come from `datacube/utils/geometry/tools.py`, which is not part of this model. They are specified here as follows:
  - an open start becomes 0 and an open stop becomes the size;
  - a negative index has the size added to it;
  - the shape is stop minus start.
- `is_affine_st(A)`, from the same file, is taken to hold exactly when b = d = 0. Any tolerance the helper applies is not modelled.

## Model

| member | source | states |
|---|---|---|
| Numeric.Ceil | datacube/utils/geometry/_base.py:749-750 | `math.ceil`: the integer k with x <= k < x + 1 |
| Numeric.FMod | datacube/utils/geometry/_base.py:891 | Python's float `%` with a positive divisor: the remainder lies in [0, m) and x minus it is a whole multiple of m |
| Affines.BasicTransforms | datacube/utils/geometry/_base.py:798 | `Affine.translation` adds its offsets to a point, `Affine.scale` multiplies each coordinate, and the identity leaves it alone |
| Affines.Compose | datacube/utils/geometry/_base.py:956 | no contract; the `affine` package's product `A * B`, characterised by ComposeApply |
| Affines.ComposeApply | datacube/utils/geometry/_base.py:806 | the product `A * B` of two affines maps a point as B and then A |
| Affines.FromAffine | datacube/utils/geometry/_base.py:767 | an affine with no rotation or shear terms is exactly its four-coefficient record |
| Affines.ApplyGridIsApply | datacube/utils/geometry/_base.py:830 | a grid record maps a point as its six-coefficient affine does, so the origins stated through ApplyGrid are the package's `affine * (x, y)` |
| Affines.Translate | datacube/utils/geometry/_base.py:830 | `A * translation(tx, ty)` keeps the pixel size, and its origin is the world position of old pixel (tx, ty) |
| Affines.TranslateIsCompose | datacube/utils/geometry/_base.py:806 | the record translation agrees with the full six-coefficient product `A * Affine.translation(tx, ty)` |
| Affines.TranslateZero | datacube/utils/geometry/_base.py:830 | translating by zero pixels leaves the affine unchanged |
| Affines.TranslateTwice | datacube/utils/geometry/_base.py:830 | two translations in a row equal one translation by their sum |
| Affines.ScaleBy | datacube/utils/geometry/_base.py:1021 | `A * scale(sx, sy)` keeps the origin and multiplies the pixel sizes |
| Affines.ScaleByIsCompose | datacube/utils/geometry/_base.py:1021 | the record scaling agrees with the full product `A * Affine.scale(sx, sy)` |
| Affines.TranslationScale | datacube/utils/geometry/_base.py:798 | `translation(offx, offy) * scale(rx, ry)` is the grid with pixel size (rx, ry) and origin (offx, offy) |
| Affines.Invert | datacube/utils/geometry/_base.py:956 | `~R` undoes R on every point, both as a grid record and as the package's six-coefficient affine |
| Affines.ThenIsCompose | datacube/utils/geometry/_base.py:956 | the record product agrees with the full product of the two affines |
| Affines.RelativeTransform | datacube/utils/geometry/_base.py:956 | `~R * G` is (G.a/R.a, (G.c-R.c)/R.a, G.e/R.e, (G.f-R.f)/R.e) |
| Bounds.Width | datacube/utils/geometry/_base.py:41-43 | no contract; `right - left` |
| Bounds.Height | datacube/utils/geometry/_base.py:45-47 | no contract; `top - bottom` |
| Bounds.Buffered | datacube/utils/geometry/_base.py:30-39 | width grows by 2*xbuff and height by 2*ybuff, and the centre is unchanged |
| Bounds.BufferedInverse | datacube/utils/geometry/_base.py:30-39 | buffering by the negated amounts restores the box |
| Bounds.BufferedEncloses | datacube/utils/geometry/_base.py:30-39 | non-negative buffers give a box enclosing the original |
| Bounds.BufferedExample | datacube/utils/geometry/_base.py:30-39 | (0,0,10,10) buffered by (1, 2) is (-2,-1,12,11) |
| Bounds.Points | datacube/utils/geometry/_base.py:49-54 | the four corners in `itertools.product` order: x0 before x1, y0 before y1 within each |
| Bounds.Transform | datacube/utils/geometry/_base.py:56-65 | the result is an ordered box that contains all four mapped corners, and each of its edges is a coordinate of some mapped corner |
| Bounds.TransformAxisAligned | datacube/utils/geometry/_base.py:56-65 | through an axis-aligned affine each axis spans the images of its two edges, whatever the sign of the scale |
| Bounds.TransformPositiveScale | datacube/utils/geometry/_base.py:56-65 | with non-negative scales an ordered box maps corner to corner |
| Bounds.TransformIdentity | datacube/utils/geometry/_base.py:56-65 | the identity maps an ordered box to itself |
| Bounds.UnionOf | datacube/utils/geometry/_base.py:1043-1058 | no contract; the left fold of `bbox_union`, characterised by UnionOfEncloses and UnionIsLeast |
| Bounds.UnionOfEncloses | datacube/utils/geometry/_base.py:1043-1058 | a non-empty union is finite, encloses every input, and each of its edges is the edge of some input |
| Bounds.UnionIsLeast | datacube/utils/geometry/_base.py:1043-1058 | every box enclosing all inputs encloses the union |
| Bounds.IntersectionOf | datacube/utils/geometry/_base.py:1061-1076 | no contract; the left fold of `bbox_intersection`, characterised by IntersectionOfInside and IntersectionIsGreatest |
| Bounds.IntersectionOfInside | datacube/utils/geometry/_base.py:1061-1076 | a non-empty intersection is finite, lies inside every input, and each of its edges is the edge of some input |
| Bounds.IntersectionIsGreatest | datacube/utils/geometry/_base.py:1061-1076 | every box inside all inputs is inside the intersection |
| Bounds.FoldsOfPair | datacube/utils/geometry/_base.py:1043-1076 | on two boxes the folds are the edge-wise min and max |
| Bounds.BboxUnion | datacube/utils/geometry/_base.py:1043-1058 | the loop computes the union fold: (+inf, +inf, -inf, -inf) on an empty stream, otherwise a finite box enclosing every input |
| Bounds.BboxIntersection | datacube/utils/geometry/_base.py:1061-1076 | the loop computes the intersection fold: (-inf, -inf, +inf, +inf) on an empty stream, otherwise a finite box inside every input |
| GridAlignment.FloorTo | datacube/utils/geometry/_base.py:752 | the greatest multiple of res at or below x |
| GridAlignment.CeilTo | datacube/utils/geometry/_base.py:749 | the least multiple of res at or above x |
| GridAlignment.PixelCount | datacube/utils/geometry/_base.py:750-753 | at least one pixel; characterised by PixelCountLeast |
| GridAlignment.PixelCountLeast | datacube/utils/geometry/_base.py:750-753 | the count is the least k >= 1 with k pixels reaching within 0.1 pixel of the span |
| GridAlignment.AlignPix | datacube/utils/geometry/_base.py:724-754 | the pixel count is at least 1 |
| GridAlignment.AlignPixAscending | datacube/utils/geometry/_base.py:751-753 | for res > 0: origin <= left < origin + res, (origin - off)/res is an integer, origin + count*res >= right - 0.1*res, and no smaller count reaches that far |
| GridAlignment.AlignPixDescending | datacube/utils/geometry/_base.py:747-750 | for res < 0, the mirror image anchored on right: right <= origin < right + \|res\|, and origin - count*\|res\| <= left + 0.1*\|res\|, and no smaller count reaches that far |
| GridAlignment.AlignPixExamples | datacube/utils/geometry/_base.py:726-745 | all ten doctests |
| GridAlignment.RoundToRes | datacube/utils/geometry/_base.py:1026-1036 | no contract beyond a non-zero resolution; characterised by RoundToResLeast |
| GridAlignment.RoundToResLeast | datacube/utils/geometry/_base.py:1035-1036 | the least integer k with k*\|res\| >= value - 0.1*\|res\|, the same for res and -res |
| GridAlignment.RoundToResExamples | datacube/utils/geometry/_base.py:1028-1033 | the three doctests 0.2 -> 1, 0.0 -> 0, 0.05 -> 0 |
| Geo.NewGeoBox | datacube/utils/geometry/_base.py:766-775 | construction succeeds exactly when b = d = 0, and stores the given fields |
| Geo.Shape | datacube/utils/geometry/_base.py:852-857 | no contract; `(height, width)` |
| Geo.Resolution | datacube/utils/geometry/_base.py:875-882 | no contract; `(affine.e, affine.a)`, the pixel size in Y, X order |
| Geo.IsEmpty | datacube/utils/geometry/_base.py:842-843 | no contract; zero width or zero height, characterised for intersections by IntersectionSize |
| Geo.Alignment | datacube/utils/geometry/_base.py:884-891 | fails only on a zero pixel size; each offset lies in [0, \|res\|) and differs from the origin by whole pixels |
| Geo.NonEmpty | datacube/utils/geometry/_base.py:845-846 | `__bool__` holds exactly when neither the width nor the height is zero, the negation of `is_empty` |
| Geo.Equal | datacube/utils/geometry/_base.py:934-940 | no contract; same shape, affine and CRS, characterised by EqualIsIdentity |
| Geo.EqualIsIdentity | datacube/utils/geometry/_base.py:934-940 | `__eq__` (shape, affine and CRS) holds exactly when the two grids are identical |
| Geo.AlignPixCovers | datacube/utils/geometry/_base.py:796-797 | each axis origin covers its interval in the axis direction, tightly (the origin less than one pixel outside the anchoring edge, and one pixel fewer would fall short by more than a tenth of a pixel), and sits a whole number of pixels from the align offset |
| Geo.FromBoundingBox | datacube/utils/geometry/_base.py:786-799 | no contract; the alignment step of `from_geopolygon`, characterised by FromBoundingBoxCovers |
| Geo.FromBoundingBoxCovers | datacube/utils/geometry/_base.py:786-799 | fails with AlignOutOfRange exactly when an align value is out of [0, \|res\|], and otherwise only on a zero resolution. On success it has the requested resolution and CRS, at least one pixel per axis, covers the box tightly on both axes (origin within one pixel of the anchoring edge, and the fewest pixels that reach the far edge within a tenth of a pixel), and its alignment is align mod \|res\| |
| Geo.FromBoundingBoxExample | datacube/utils/geometry/_base.py:786-799 | the box [20,30] x [20,30] at (-10, 10), built from the `_align_pix` doctests at :726 and :736, is one pixel with affine (10, 0, 20, 0, -10, 30) |
| Geo.Buffered | datacube/utils/geometry/_base.py:801-811 | fails only on a zero pixel size. Otherwise it has 2*nx more columns and 2*ny more rows, the same CRS and resolution, and its origin is old pixel (-nx, -ny) |
| Geo.Crop | datacube/utils/geometry/_base.py:813-832 | more than two axes give Not2dSlice, then a non-unit step gives ScalingNotImplemented, then fewer than two axes give Not2dSlice. On success the size is stop - start per axis, the CRS and resolution are kept, and the origin is old pixel (x0, y0) |
| Geo.CropWhole | datacube/utils/geometry/_base.py:813-832 | for a grid of non-negative size, cropping the full extent, or `geobox[:]`, returns the same grid |
| Geo.CropRow | datacube/utils/geometry/_base.py:814-815 | a non-negative int index gives one full-width row starting at that row |
| Geo.CropNegativeRowAsWritten | datacube/utils/geometry/_base.py:814-815 | on every grid, `geobox[-1]` has height 1 - height (-9 on a 10-row grid) instead of 1 |
| Geo.CropIntended | datacube/utils/geometry/_base.py:813-832 | no contract; `__getitem__` with an int index normalised before it becomes a slice, characterised by CropIntendedRow |
| Geo.CropIntendedRow | datacube/utils/geometry/_base.py:814-815 | with the index normalised first, every in-range index, negative or not, gives exactly one full-width row |
| Geo.CeilDivInt | datacube/utils/geometry/_base.py:1016-1017 | `X // s + (1 if X % s else 0)` is the least q with q*s >= X |
| Geo.ScaledDown | datacube/utils/geometry/_base.py:1004-1023 | the least whole number of output pixels covering the input on each axis, with the same origin and CRS and the pixel size multiplied by the scaler |
| Geo.ScaledDownExample | datacube/utils/geometry/_base.py:1008 | a 5x4 grid scaled by 2 is 3x2 |
| PixelDomain.BoundingBoxInPixelDomain | datacube/utils/geometry/_base.py:943-963 | a CRS mismatch is raised first, then a singular reference, then IncompatibleGrids. On success the box has integral corners, spans the grid's width and height, and the grid is the reference moved by (left, bottom) pixels |
| PixelDomain.RelativeShift | datacube/utils/geometry/_base.py:956-963 | a relative transform that is a whole-pixel translation means the grid is the reference translated by those pixels |
| PixelDomain.PixelDomainOfShift | datacube/utils/geometry/_base.py:943-963 | a grid moved by whole pixels (tx, ty) from an invertible reference in the same CRS has the box (tx, ty, tx + width, ty + height) |
| PixelDomain.PixelDomainOkIffShifted | datacube/utils/geometry/_base.py:943-963 | succeeds exactly when the CRS matches, the reference is invertible and some whole-pixel shift relates the grids |
| PixelDomain.PixelDomainOfSelf | datacube/utils/geometry/_base.py:943-963 | a grid against itself is (0, 0, width, height) |
| PixelDomain.BufferedInParentDomain | datacube/utils/geometry/_base.py:801-811 | a buffered grid in its parent's pixel domain is (-nx, -ny, width + nx, height + ny) |
| PixelDomain.CropInParentDomain | datacube/utils/geometry/_base.py:813-832 | a crop in its parent's pixel domain is the normalised window (x0, y0, x1, y1) |
| PixelDomain.PixelBoxes | datacube/utils/geometry/_base.py:973-974 | the generator's boxes in order, or the error of the first grid that fails, with every earlier grid succeeding |
| PixelDomain.PixelBoxesIntegral | datacube/utils/geometry/_base.py:962-963 | every box in the stream is a pixel box of its grid |
| PixelDomain.GridOver | datacube/utils/geometry/_base.py:976-978 | the reference's CRS and resolution, with its origin at the box's lower corner |
| PixelDomain.GridOverPixelBox | datacube/utils/geometry/_base.py:976-978 | for a box with integral corners, the grid built over it has that box as its pixel box |
| PixelDomain.UnionConservative | datacube/utils/geometry/_base.py:966-978 | fails on an empty list or with the stream's first error; otherwise it keeps the first grid's CRS and resolution |
| PixelDomain.UnionBoxIntegral | datacube/utils/geometry/_base.py:966-978 | the union box has integral corners |
| PixelDomain.UnionEnclosesInputs | datacube/utils/geometry/_base.py:966-978 | the result's pixel box is the union of the inputs' pixel boxes: it encloses every input and is the least box that does |
| PixelDomain.Standardise | datacube/utils/geometry/_base.py:993-997 | a crossed axis collapses onto its left or bottom edge, and the result is ordered |
| PixelDomain.IntersectionConservative | datacube/utils/geometry/_base.py:981-1001 | fails on an empty list or with the stream's first error; otherwise it keeps the first grid's CRS and resolution |
| PixelDomain.IntersectionBoxIntegral | datacube/utils/geometry/_base.py:981-1001 | the intersection box has integral corners |
| PixelDomain.IntersectionPixelBox | datacube/utils/geometry/_base.py:981-1001 | the result's pixel box is the standardised intersection of the inputs' pixel boxes |
| PixelDomain.IntersectionInsideInputs | datacube/utils/geometry/_base.py:990-991 | the intersection lies inside every input's pixel box and is the greatest such box |
| PixelDomain.IntersectionSize | datacube/utils/geometry/_base.py:993-1001 | width and height are never negative, and the grid is empty exactly when the inputs do not overlap with positive area |
| PixelDomain.Or | datacube/utils/geometry/_base.py:834-836 | succeeds exactly when both grids have a pixel box against the left operand, and keeps its CRS and resolution |
| PixelDomain.And | datacube/utils/geometry/_base.py:838-840 | succeeds exactly when both grids have a pixel box against the left operand, and keeps its CRS and resolution |
| PixelDomain.OrAndOfCompatible | datacube/utils/geometry/_base.py:834-840 | `g \| o` is the grid over the edge-wise min/max of the two pixel boxes; `g & o` is the grid over their standardised max/min |
| PixelDomain.OrAndOfIncompatible | datacube/utils/geometry/_base.py:834-840 | when the pair does not combine, both operators raise the first failure (g against itself, then o against g) |
| PixelDomain.OrIdempotent | datacube/utils/geometry/_base.py:834-836 | `g \| g == g` for every invertible grid |
| PixelDomain.AndIdempotent | datacube/utils/geometry/_base.py:838-840 | `g & g == g` for every invertible grid of non-negative size |
| PixelDomain.DisjointCopies | datacube/utils/geometry/_base.py:834-840 | a grid and its copy moved k >= width pixels: the union is k + width wide at g's origin, and the intersection is zero columns wide at the copy's origin |
| PixelDomain.HalfPixelShiftIncompatible | datacube/utils/geometry/_base.py:958-960 | a copy moved by half a pixel is rejected as IncompatibleGrids |
| PixelDomain.CoarserGridIncompatible | datacube/utils/geometry/_base.py:958-960 | a grid with twice the pixel width is rejected as IncompatibleGrids |
| PixelDomain.CrsMismatchIncompatible | datacube/utils/geometry/_base.py:953-954 | grids in different CRSs are rejected as CrsMismatch |
| Coords2d.Go | datacube/utils/geometry/_base.py:269-279 | only an "other" value raises (InvalidCoordinate), and a scalar stays a scalar and a sequence a sequence |
| Coords2d.GoEach | datacube/utils/geometry/_base.py:277 | the comprehension succeeds exactly when every entry does, and then maps each entry through Go into a new list of the same length |
| Coords2d.Ensure2d | datacube/utils/geometry/_base.py:263-282 | keeps the geometry type; fails, always with InvalidCoordinate, exactly when the coordinates hold a value that is neither a scalar nor a sequence; on success the coordinates are 2D and each point keeps exactly its first two values (KeepsFirstTwo); coordinates that are already 2D come back with the same contents |
| Coords2d.GoOkIffWellFormed | datacube/utils/geometry/_base.py:269-279 | succeeds exactly when the tree holds no value that is neither a scalar nor a sequence |
| Coords2d.GoKeepsFirstTwo | datacube/utils/geometry/_base.py:270-279 | every all-scalar sequence becomes its own first min(2, n) entries, in order, and every other sequence keeps its length with each entry rewritten the same way |
| Coords2d.GoIs2d | datacube/utils/geometry/_base.py:275-276 | every all-scalar sequence in the result has at most two entries |
| Coords2d.GoIdempotent | datacube/utils/geometry/_base.py:263-282 | rewriting twice is the same as rewriting once |
| Coords2d.GoKeeps2d | datacube/utils/geometry/_base.py:263-282 | a well-formed tree that is already 2D is returned with the same contents (lists and tuples are not told apart) |
| Coords2d.Ensure2dExample | datacube/utils/geometry/_base.py:263-282 | a 3D polygon ring loses its third coordinates |

## Left out

- PixelDomain.BoundingBoxInPixelDomain: compares exactly. The code accepts a unit scale within `numpy.isclose` and a translation within 1e-8 of an integer (`is_almost_int`), and then rounds with `round`. Over exact reals the tolerance has nothing to absorb.
- Float rounding in general: every computation is over exact reals, so rounding effects in `math.floor`/`math.ceil` of computed quotients are not modelled.
- The `CRS` class, `_make_crs`, `_guess_crs_str` and `transformer_to_crs`: these wrap pyproj and a global cache. A CRS is an opaque identifier compared by equality.
- `Geometry`, shapely and everything built on them, including GeoBox's `extent` polygon: these are foreign calls on float geometry. GeoBox stores its CRS as a field instead of reading it from `extent`.
- `from_geopolygon`'s reprojection (`to_crs`) and its bounding-box extraction: only the alignment step is modelled (`Geo.FromBoundingBox`), on a given bounding box and CRS.
- `_chop_along_antimeridian` and `_is_smooth_across_dateline`: a floating-point heuristic over opaque transform functions.
- GeoBox `dimensions`, `units`, `geographic_extent`, `coordinates`, `__str__` and `__repr__`: these depend on pyproj or numpy, or are display only.
- `roi_normalise`, `roi_shape` and `is_affine_st`: they live in `datacube/utils/geometry/tools.py`, which is not part of this model. The rules the model assumes for them are listed above.
- Geo.Crop: slice bounds are Python ints or None. Numpy integers and other index types are not modelled.
- Geo.EqualIsIdentity: a non-GeoBox operand (where `__eq__` returns False) cannot occur in the typed model.
- Coords2d.Go: Python strings are sequences whose entries are strings again, so `go` recurses without end on them. The model's `Other` stands for the non-sequence values that raise `ValueError`. A bool counts as a scalar, as in Python.
- Coords2d.Go: `Items` stands for both Python lists and tuples. `go` builds a new list at every level above the leaves but keeps a leaf tuple as it is, so a 2D tree of nested tuples comes back as lists, which Python's `==` tells apart from the input. GoKeeps2d and Ensure2d's "same contents" hold only up to list versus tuple.
- Coords2d.Ensure2d: `ensure_2d` returns a new mapping holding only `type` and `coordinates` (:281-282), so any other key of the input is dropped. The two-field record cannot show this, so the "returned as it is" clause holds only for mappings with just those two keys.
- Coords2d.Ensure2d: the two `assert`s on the `type` and `coordinates` keys are always met by the typed record.
- Geo.ScaledDown: `assert scaler > 1` is a precondition rather than an error result.

## Findings

| source | as written | input that shows it | evidently intended | confidence | as-written member | corrected member |
|---|---|---|---|---|---|---|
| datacube/utils/geometry/_base.py:814-815 | an int index `i` becomes `slice(i, i+1)` before normalisation, so `-1` becomes `slice(-1, 0)`; the start is normalised to height - 1 but the stop 0 stays 0 | `geobox[-1]` on a grid of height 10 gives height -9 | the last row, as Python sequence indexing does: height 1 | medium, not executed (relies on `roi_normalise` normalising start and stop independently and `roi_shape` being stop - start) | Geo.CropNegativeRowAsWritten | Geo.CropIntendedRow |
