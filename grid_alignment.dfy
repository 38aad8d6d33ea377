/** `_align_pix` and `_round_to_res`: snapping a world-space interval or
    distance onto a pixel grid, with a slack of 0.1 pixel that keeps float
    noise from adding a whole extra pixel. */
module GridAlignment {
  import opened Numeric

  /** floor(x / m) * m: the last multiple of m at or below x. */
  function FloorTo(x: real, m: real): (g: real)
    requires m > 0.0
    ensures g <= x < g + m
    ensures IsInt(g / m)
  {
    FloorDivBounds(x, m);
    var k := (x / m).Floor;
    MultipleIsInt(k, m);
    assert (k + 1) as real * m == k as real * m + m;
    k as real * m
  }

  /** ceil(x / m) * m: the first multiple of m at or above x. */
  function CeilTo(x: real, m: real): (g: real)
    requires m > 0.0
    ensures g - m < x <= g
    ensures IsInt(g / m)
  {
    CeilDivBounds(x, m);
    var k := Ceil(x / m);
    MultipleIsInt(k, m);
    assert (k - 1) as real * m == k as real * m - m;
    k as real * m
  }

  /** max(1, ceil((span - 0.1*m) / m)): the number of pixels of size m that
      cover `span` up to a tenth of a pixel. */
  function PixelCount(span: real, m: real): (n: int)
    requires m > 0.0
    ensures n >= 1
  {
    Max(1, Ceil((span - 0.1 * m) / m))
  }

  /** The count is the least one (but at least one) that covers the span. */
  lemma PixelCountLeast(span: real, m: real)
    requires m > 0.0
    ensures PixelCount(span, m) as real * m >= span - 0.1 * m
    ensures PixelCount(span, m) == 1 || (PixelCount(span, m) - 1) as real * m < span - 0.1 * m
  {
    var z := span - 0.1 * m;
    CeilDivBounds(z, m);
    var c := Ceil(z / m);
    if c < 1 {
      MulLeRight(c as real, 1.0, m);
    }
  }

  /** `_align_pix(left, right, res, off)`: the origin of a grid with lines at
      `off + k*|res|` and the number of pixels (at least one) it needs to
      cover [left, right].  An ascending axis (res > 0) is anchored below
      `left`; a descending one (res < 0) above `right`.  Division by a zero
      resolution raises in the code, so `res` must be non-zero. */
  function AlignPix(left: real, right: real, res: real, off: real): (r: (real, int))
    requires res != 0.0
    ensures r.1 >= 1
  {
    if res < 0.0 then
      var origin := CeilTo(right - off, -res) + off;
      (origin, PixelCount(origin - left, -res))
    else
      var origin := FloorTo(left - off, res) + off;
      (origin, PixelCount(right - origin, res))
  }

  /** Ascending axis: the origin is the last grid line at or below `left`,
      it is `off` plus a whole number of pixels, and the pixel count is the
      least one (but at least one) whose far edge reaches `right` within a
      tenth of a pixel. */
  lemma AlignPixAscending(left: real, right: real, res: real, off: real)
    requires res > 0.0
    ensures var r := AlignPix(left, right, res, off);
      && r.0 <= left < r.0 + res
      && IsInt((r.0 - off) / res)
      && r.0 + r.1 as real * res >= right - 0.1 * res
      && (r.1 == 1 || r.0 + (r.1 - 1) as real * res < right - 0.1 * res)
  {
    var origin := FloorTo(left - off, res) + off;
    assert origin - off == FloorTo(left - off, res);
    PixelCountLeast(right - origin, res);
  }

  /** Descending axis: the mirror image, anchored on `right` with |res|. */
  lemma AlignPixDescending(left: real, right: real, res: real, off: real)
    requires res < 0.0
    ensures var r := AlignPix(left, right, res, off);
      && r.0 + res < right <= r.0
      && IsInt((r.0 - off) / -res)
      && r.0 - r.1 as real * -res <= left + 0.1 * -res
      && (r.1 == 1 || r.0 - (r.1 - 1) as real * -res > left + 0.1 * -res)
  {
    var origin := CeilTo(right - off, -res) + off;
    assert origin - off == CeilTo(right - off, -res);
    PixelCountLeast(origin - left, -res);
  }

  /** The doctests of `_align_pix`. */
  lemma AlignPixExamples()
    ensures AlignPix(20.0, 30.0, 10.0, 0.0) == (20.0, 1)
    ensures AlignPix(20.0, 30.5, 10.0, 0.0) == (20.0, 1)
    ensures AlignPix(20.0, 31.5, 10.0, 0.0) == (20.0, 2)
    ensures AlignPix(20.0, 30.0, 10.0, 3.0) == (13.0, 2)
    ensures AlignPix(20.0, 30.0, 10.0, -3.0) == (17.0, 2)
    ensures AlignPix(20.0, 30.0, -10.0, 0.0) == (30.0, 1)
    ensures AlignPix(19.5, 30.0, -10.0, 0.0) == (30.0, 1)
    ensures AlignPix(18.5, 30.0, -10.0, 0.0) == (30.0, 2)
    ensures AlignPix(20.0, 30.0, -10.0, 3.0) == (33.0, 2)
    ensures AlignPix(20.0, 30.0, -10.0, -3.0) == (37.0, 2)
  {
    assert (2.0).Floor == 2 && (1.7).Floor == 1 && (2.3).Floor == 2;
    assert (-0.9).Floor == -1 && (-0.95).Floor == -1 && (-1.05).Floor == -2 && (-1.2).Floor == -2;
    assert (-3.0).Floor == -3 && (-2.7).Floor == -3 && (-3.3).Floor == -4;
  }

  /** `_round_to_res(value, res)`: a world-space distance as a whole number
      of pixels of size |res|, rounded up but with a tenth-pixel slack. */
  function RoundToRes(value: real, res: real): (k: int)
    requires res != 0.0
  {
    Ceil((value - 0.1 * Abs(res)) / Abs(res))
  }

  /** The result is the least integer k with k*|res| >= value - 0.1*|res|;
      only |res| matters. */
  lemma RoundToResLeast(value: real, res: real)
    requires res != 0.0
    ensures RoundToRes(value, res) as real * Abs(res) >= value - 0.1 * Abs(res)
    ensures (RoundToRes(value, res) - 1) as real * Abs(res) < value - 0.1 * Abs(res)
    ensures RoundToRes(value, res) == RoundToRes(value, -res)
  {
    CeilDivBounds(value - 0.1 * Abs(res), Abs(res));
  }

  /** The doctests of `_round_to_res`. */
  lemma RoundToResExamples()
    ensures RoundToRes(0.2, 1.0) == 1
    ensures RoundToRes(0.0, 1.0) == 0
    ensures RoundToRes(0.05, 1.0) == 0
  {
    assert (-0.1).Floor == -1 && (0.1).Floor == 0 && (0.05).Floor == 0;
  }
}
