/**
 * The geometry behind stroke normalisation (stroke.c, stroke_finish):
 * the point record, the arc-length time parametrisation, the bounding box
 * and the canonical form a finished stroke takes. Everything here is a
 * function of the raw samples; the in-place algorithm that produces it is
 * Strokes.Stroke.Finish.
 */
module Geometry {

  /** One sample of a stroke. `dt` and `alpha` describe the segment that
      starts at this point; they are meaningless for the last point. */
  datatype Point = Point(x: real, y: real, t: real, dt: real, alpha: real)

  /** M_PI as stroke.c defines it when the C library does not. */
  const Pi: real := 3.14159265358979323846

  /** The two C math library functions the normaliser calls. The model does
      not define them; it only relies on what `Sound` says of them. */
  datatype Libm = Libm(hypot: (real, real) -> real, atan2: (real, real) -> real)

  /** What the normaliser needs of the math library: a length is never
      negative and an angle lies in [-pi, pi]. */
  ghost predicate Sound(m: Libm)
  {
    && (forall dx: real, dy: real :: m.hypot(dx, dy) >= 0.0)
    && (forall dy: real, dx: real :: -Pi <= m.atan2(dy, dx) <= Pi)
  }

  /** hypot(c*dx, c*dy) == c*hypot(dx, dy) for a positive factor c: the
      homogeneity a Euclidean length has. Only the scale-invariance lemma
      needs it. */
  ghost predicate Homogeneous(m: Libm, c: real)
  {
    forall dx: real, dy: real {:trigger m.hypot(Times(c, dx), Times(c, dy))} ::
      m.hypot(Times(c, dx), Times(c, dy)) == Times(c, m.hypot(dx, dy))
  }

  /** Plain multiplication, named so that Homogeneous has a trigger. */
  function Times(c: real, v: real): real
  {
    c * v
  }

  /** The `min` and `max` of util.h (declared there, defined elsewhere). */
  function Min(a: real, b: real): (r: real)
    ensures r <= a && r <= b && (r == a || r == b)
  {
    if a < b then a else b
  }

  function Max(a: real, b: real): (r: real)
    ensures r >= a && r >= b && (r == a || r == b)
  {
    if a > b then a else b
  }

  // ---------------------------------------------------------------------
  // Arc length

  /** Length of the segment from point i to point i+1. */
  function SegmentLength(m: Libm, pts: seq<Point>, i: nat): real
    requires i + 1 < |pts|
  {
    m.hypot(pts[i + 1].x - pts[i].x, pts[i + 1].y - pts[i].y)
  }

  /** Length of the polyline from point 0 to point k (the running `total`
      of stroke_finish's first loop). */
  function ArcLength(m: Libm, pts: seq<Point>, k: nat): real
    requires k < |pts|
  {
    if k == 0 then 0.0 else ArcLength(m, pts, k - 1) + SegmentLength(m, pts, k - 1)
  }

  function TotalLength(m: Libm, pts: seq<Point>): real
    requires |pts| >= 1
  {
    ArcLength(m, pts, |pts| - 1)
  }

  /** The strokes the normaliser is defined on: at least two samples and a
      polyline of positive length (otherwise stroke_finish divides by zero). */
  predicate Normalisable(m: Libm, raw: seq<Point>)
  {
    |raw| >= 2 && TotalLength(m, raw) > 0.0
  }

  /** Normalised arc-length time of point i. */
  function TimeAt(m: Libm, raw: seq<Point>, i: nat): real
    requires Normalisable(m, raw) && i < |raw|
  {
    ArcLength(m, raw, i) / TotalLength(m, raw)
  }

  // ---------------------------------------------------------------------
  // Bounding box

  function Xs(pts: seq<Point>): (v: seq<real>)
    ensures |v| == |pts| && forall i {:trigger v[i]} :: 0 <= i < |pts| ==> v[i] == pts[i].x
  {
    seq(|pts|, i requires 0 <= i < |pts| => pts[i].x)
  }

  function Ys(pts: seq<Point>): (v: seq<real>)
    ensures |v| == |pts| && forall i {:trigger v[i]} :: 0 <= i < |pts| ==> v[i] == pts[i].y
  {
    seq(|pts|, i requires 0 <= i < |pts| => pts[i].y)
  }

  /** Smallest of v[0..k], folded from the front as stroke_finish does. */
  function LowestUpTo(v: seq<real>, k: nat): real
    requires k < |v|
  {
    if k == 0 then v[0] else Min(v[k], LowestUpTo(v, k - 1))
  }

  function HighestUpTo(v: seq<real>, k: nat): real
    requires k < |v|
  {
    if k == 0 then v[0] else Max(v[k], HighestUpTo(v, k - 1))
  }

  function Lowest(v: seq<real>): real
    requires |v| >= 1
  {
    LowestUpTo(v, |v| - 1)
  }

  function Highest(v: seq<real>): real
    requires |v| >= 1
  {
    HighestUpTo(v, |v| - 1)
  }

  /** Below this extent the stroke is treated as a dot and not magnified. */
  const MinScale: real := 0.001

  /** The larger side of the bounding box, or 1 when that is below MinScale. */
  function Scale(raw: seq<Point>): real
    requires |raw| >= 1
  {
    ScaleOf(Highest(Xs(raw)) - Lowest(Xs(raw)), Highest(Ys(raw)) - Lowest(Ys(raw)))
  }

  /** The stroke is not a dot: the larger side of its bounding box is at
      least MinScale, so the fourth pass divides by that side. */
  predicate NotDot(raw: seq<Point>)
    requires |raw| >= 1
  {
    Max(Highest(Xs(raw)) - Lowest(Xs(raw)), Highest(Ys(raw)) - Lowest(Ys(raw))) >= MinScale
  }

  /** The scale chosen for a box of extents sx by sy. */
  function ScaleOf(sx: real, sy: real): real
  {
    var s := if sx > sy then sx else sy;
    if s < MinScale then 1.0 else s
  }

  /** Move the centre of [lo, hi] to 0.5 and divide by the scale. */
  function Normalise(v: real, lo: real, hi: real, scale: real): real
    requires scale > 0.0
  {
    (v - (lo + hi) / 2.0) / scale + 0.5
  }

  lemma {:induction false} ScalePositive(raw: seq<Point>)
    requires |raw| >= 1
    ensures Scale(raw) >= MinScale
  {
    var sx := Highest(Xs(raw)) - Lowest(Xs(raw));
    var sy := Highest(Ys(raw)) - Lowest(Ys(raw));
  }

  function NormX(raw: seq<Point>, i: nat): real
    requires i < |raw|
  {
    ScalePositive(raw);
    Normalise(raw[i].x, Lowest(Xs(raw)), Highest(Xs(raw)), Scale(raw))
  }

  function NormY(raw: seq<Point>, i: nat): real
    requires i < |raw|
  {
    ScalePositive(raw);
    Normalise(raw[i].y, Lowest(Ys(raw)), Highest(Ys(raw)), Scale(raw))
  }

  // ---------------------------------------------------------------------
  // The canonical form

  /** The stroke stroke_finish leaves behind: normalised coordinates,
      arc-length time, and for every segment its share of the time and its
      direction as a fraction of pi, taken on the normalised coordinates.
      The last point keeps the `dt` and `alpha` it had. */
  function Canonical(m: Libm, raw: seq<Point>): (c: seq<Point>)
    requires Normalisable(m, raw)
    ensures |c| == |raw|
    ensures forall i {:trigger c[i]} :: 0 <= i < |raw| ==> c[i] == CanonicalPoint(m, raw, i)
  {
    seq(|raw|, i requires 0 <= i < |raw| => CanonicalPoint(m, raw, i))
  }

  function CanonicalPoint(m: Libm, raw: seq<Point>, i: nat): Point
    requires Normalisable(m, raw) && i < |raw|
  {
    Point(NormX(raw, i), NormY(raw, i), TimeAt(m, raw, i),
          if i + 1 < |raw| then TimeAt(m, raw, i + 1) - TimeAt(m, raw, i) else raw[i].dt,
          if i + 1 < |raw| then Direction(m, raw, i) else raw[i].alpha)
  }

  /** atan2 of the normalised segment from point i to point i+1, over pi. */
  function Direction(m: Libm, raw: seq<Point>, i: nat): real
    requires i + 1 < |raw|
  {
    m.atan2(NormY(raw, i + 1) - NormY(raw, i), NormX(raw, i + 1) - NormX(raw, i)) / Pi
  }

  /** Times that never decrease along the stroke. */
  ghost predicate TimesNonDecreasing(pts: seq<Point>)
  {
    forall i, j :: 0 <= i <= j < |pts| ==> pts[i].t <= pts[j].t
  }

  // ---------------------------------------------------------------------
  // Properties of the canonical form

  lemma {:induction false} ArcLengthMonotone(m: Libm, pts: seq<Point>, i: nat, j: nat)
    requires Sound(m) && i <= j < |pts|
    ensures 0.0 <= ArcLength(m, pts, i) <= ArcLength(m, pts, j)
  {
    if j > i {
      ArcLengthMonotone(m, pts, i, j - 1);
    } else if i > 0 {
      ArcLengthMonotone(m, pts, i - 1, i - 1);
    }
  }

  lemma DivideMonotone(a: real, b: real, total: real)
    requires total > 0.0 && 0.0 <= a <= b
    ensures 0.0 <= a / total <= b / total
  {
  }

  /** After finishing: t starts at 0, ends at 1, never decreases, and every
      segment's dt is the (non-negative) time between its end points. */
  lemma {:induction false} CanonicalTimes(m: Libm, raw: seq<Point>)
    requires Sound(m) && Normalisable(m, raw)
    ensures var c := Canonical(m, raw);
      && c[0].t == 0.0
      && c[|c| - 1].t == 1.0
      && TimesNonDecreasing(c)
      && forall i :: 0 <= i < |c| - 1 ==> c[i].dt == c[i + 1].t - c[i].t >= 0.0
  {
    var c := Canonical(m, raw);
    TimeEnds(m, raw);
    forall i, j | 0 <= i <= j < |c|
      ensures c[i].t <= c[j].t
    {
      TimeOrdered(m, raw, i, j);
    }
    forall i | 0 <= i < |c| - 1
      ensures c[i].dt == c[i + 1].t - c[i].t >= 0.0
    {
      TimeOrdered(m, raw, i, i + 1);
    }
  }

  lemma TimeEnds(m: Libm, raw: seq<Point>)
    requires Normalisable(m, raw)
    ensures TimeAt(m, raw, 0) == 0.0 && TimeAt(m, raw, |raw| - 1) == 1.0
  {
    var total := TotalLength(m, raw);
    assert TimeAt(m, raw, 0) == 0.0 / total;
    assert TimeAt(m, raw, |raw| - 1) == total / total;
  }

  /** Normalised times are never negative and never decrease. */
  lemma TimeOrdered(m: Libm, raw: seq<Point>, i: nat, j: nat)
    requires Sound(m) && Normalisable(m, raw) && i <= j < |raw|
    ensures 0.0 <= TimeAt(m, raw, i) <= TimeAt(m, raw, j)
  {
    ArcLengthMonotone(m, raw, i, j);
    DivideMonotone(ArcLength(m, raw, i), ArcLength(m, raw, j), TotalLength(m, raw));
  }

  /** Every segment direction lies in [-1, 1] (a fraction of pi). */
  lemma {:induction false} CanonicalAngles(m: Libm, raw: seq<Point>)
    requires Sound(m) && Normalisable(m, raw)
    ensures var c := Canonical(m, raw);
      forall i :: 0 <= i < |c| - 1 ==> -1.0 <= c[i].alpha <= 1.0
  {
    var c := Canonical(m, raw);
    forall i | 0 <= i < |c| - 1
      ensures -1.0 <= c[i].alpha <= 1.0
    {
      var a := m.atan2(NormY(raw, i + 1) - NormY(raw, i), NormX(raw, i + 1) - NormX(raw, i));
      assert -Pi <= a <= Pi;
      assert c[i].alpha == Direction(m, raw, i) == a / Pi;
    }
  }

  // ---------------------------------------------------------------------
  // Bounding box lemmas

  lemma {:induction false} LowestUpToBounds(v: seq<real>, k: nat)
    requires k < |v|
    ensures forall i :: 0 <= i <= k ==> LowestUpTo(v, k) <= v[i]
    ensures exists i :: 0 <= i <= k && LowestUpTo(v, k) == v[i]
  {
    if k > 0 {
      LowestUpToBounds(v, k - 1);
    } else {
      assert LowestUpTo(v, k) == v[0];
    }
  }

  lemma {:induction false} HighestUpToBounds(v: seq<real>, k: nat)
    requires k < |v|
    ensures forall i :: 0 <= i <= k ==> v[i] <= HighestUpTo(v, k)
    ensures exists i :: 0 <= i <= k && HighestUpTo(v, k) == v[i]
  {
    if k > 0 {
      HighestUpToBounds(v, k - 1);
    } else {
      assert HighestUpTo(v, k) == v[0];
    }
  }

  /** A strictly increasing map commutes with the running minimum and maximum. */
  lemma {:induction false} IncreasingExtremes(v: seq<real>, w: seq<real>, f: real -> real, k: nat)
    requires |v| == |w| && k < |v|
    requires forall a, b :: a < b ==> f(a) < f(b)
    requires forall i :: 0 <= i < |v| ==> w[i] == f(v[i])
    ensures LowestUpTo(w, k) == f(LowestUpTo(v, k))
    ensures HighestUpTo(w, k) == f(HighestUpTo(v, k))
  {
    if k > 0 {
      IncreasingExtremes(v, w, f, k - 1);
    }
  }

  lemma MulMonotone(a: real, b: real, s: real)
    requires s > 0.0
    ensures a < b ==> a * s < b * s
    ensures a == b ==> a * s == b * s
  {
    if a < b {
      assert (b - a) * s > 0.0;
    }
  }

  /** |v - mid| <= half the scale puts the normalised value in [0, 1]. */
  lemma NormaliseInUnit(v: real, lo: real, hi: real, scale: real)
    requires scale > 0.0 && lo <= v <= hi && hi - lo <= scale
    ensures 0.0 <= Normalise(v, lo, hi, scale) <= 1.0
  {
    var d := v - (lo + hi) / 2.0;
    var q := d / scale;
    assert q * scale == d;
    assert -scale / 2.0 <= d <= scale / 2.0;
    if q > 0.5 {
      MulMonotone(0.5, q, scale);
    }
    if q < -0.5 {
      MulMonotone(q, -0.5, scale);
    }
  }

  /** The extent of a coordinate never exceeds the scale, whatever branch
      chose the scale. */
  lemma {:induction false} ExtentWithinScale(raw: seq<Point>)
    requires |raw| >= 1
    ensures 0.0 <= Highest(Xs(raw)) - Lowest(Xs(raw)) <= Scale(raw)
    ensures 0.0 <= Highest(Ys(raw)) - Lowest(Ys(raw)) <= Scale(raw)
  {
    LowestUpToBounds(Xs(raw), |raw| - 1);
    HighestUpToBounds(Xs(raw), |raw| - 1);
    LowestUpToBounds(Ys(raw), |raw| - 1);
    HighestUpToBounds(Ys(raw), |raw| - 1);
  }

  /** After finishing, every coordinate lies in [0, 1]. */
  lemma {:induction false} CanonicalInUnitSquare(m: Libm, raw: seq<Point>)
    requires Normalisable(m, raw)
    ensures var c := Canonical(m, raw);
      forall i :: 0 <= i < |c| ==> 0.0 <= c[i].x <= 1.0 && 0.0 <= c[i].y <= 1.0
  {
    var c := Canonical(m, raw);
    var xs, ys := Xs(raw), Ys(raw);
    ExtentWithinScale(raw);
    LowestUpToBounds(xs, |raw| - 1);
    HighestUpToBounds(xs, |raw| - 1);
    LowestUpToBounds(ys, |raw| - 1);
    HighestUpToBounds(ys, |raw| - 1);
    ScalePositive(raw);
    forall i | 0 <= i < |c|
      ensures 0.0 <= c[i].x <= 1.0 && 0.0 <= c[i].y <= 1.0
    {
      assert xs[i] == raw[i].x && ys[i] == raw[i].y;
      NormaliseInUnit(raw[i].x, Lowest(xs), Highest(xs), Scale(raw));
      NormaliseInUnit(raw[i].y, Lowest(ys), Highest(ys), Scale(raw));
    }
  }

  lemma DivMonotone(a: real, b: real, scale: real)
    requires scale > 0.0 && a < b
    ensures a / scale < b / scale
  {
    var qa, qb := a / scale, b / scale;
    assert qa * scale == a && qb * scale == b;
    if qa >= qb {
      MulMonotone(qb, qa, scale);
    }
  }

  lemma {:induction false} NormalisedExtremes(v: seq<real>, w: seq<real>, scale: real)
    requires |v| == |w| >= 1 && scale > 0.0
    requires forall i :: 0 <= i < |v| ==> w[i] == Normalise(v[i], Lowest(v), Highest(v), scale)
    ensures Lowest(w) + Highest(w) == 1.0
    ensures Highest(w) - Lowest(w) == (Highest(v) - Lowest(v)) / scale
  {
    NormaliseUpTo(v, w, Lowest(v), Highest(v), scale, |v| - 1);
    NormaliseEnds(Lowest(v), Highest(v), scale);
  }

  /** Normalising keeps the running extremes, since it is increasing. */
  lemma {:induction false} NormaliseUpTo(v: seq<real>, w: seq<real>, lo: real, hi: real, scale: real, k: nat)
    requires |v| == |w| && k < |v| && scale > 0.0
    requires forall i :: 0 <= i < |v| ==> w[i] == Normalise(v[i], lo, hi, scale)
    ensures LowestUpTo(w, k) == Normalise(LowestUpTo(v, k), lo, hi, scale)
    ensures HighestUpTo(w, k) == Normalise(HighestUpTo(v, k), lo, hi, scale)
  {
    if k > 0 {
      NormaliseUpTo(v, w, lo, hi, scale, k - 1);
      NormaliseMinMax(v[k], LowestUpTo(v, k - 1), lo, hi, scale);
      NormaliseMinMax(v[k], HighestUpTo(v, k - 1), lo, hi, scale);
    }
  }

  lemma NormaliseMinMax(a: real, b: real, lo: real, hi: real, scale: real)
    requires scale > 0.0
    ensures Min(Normalise(a, lo, hi, scale), Normalise(b, lo, hi, scale)) == Normalise(Min(a, b), lo, hi, scale)
    ensures Max(Normalise(a, lo, hi, scale), Normalise(b, lo, hi, scale)) == Normalise(Max(a, b), lo, hi, scale)
  {
    var mid := (lo + hi) / 2.0;
    if a < b {
      DivMonotone(a - mid, b - mid, scale);
    } else if b < a {
      DivMonotone(b - mid, a - mid, scale);
    }
  }

  /** After finishing, the bounding box is centred at (0.5, 0.5), and when the
      stroke is not a dot its larger side is exactly 1. */
  lemma {:induction false} CanonicalCentred(m: Libm, raw: seq<Point>)
    requires Normalisable(m, raw)
    ensures var c := Canonical(m, raw);
      && Lowest(Xs(c)) + Highest(Xs(c)) == 1.0
      && Lowest(Ys(c)) + Highest(Ys(c)) == 1.0
      && (NotDot(raw) ==>
            Max(Highest(Xs(c)) - Lowest(Xs(c)), Highest(Ys(c)) - Lowest(Ys(c))) == 1.0)
  {
    var c := Canonical(m, raw);
    var sc := Scale(raw);
    ScalePositive(raw);
    NormalisedExtremes(Xs(raw), Xs(c), sc);
    NormalisedExtremes(Ys(raw), Ys(c), sc);
    ExtentWithinScale(raw);
    if NotDot(raw) {
      var sx, sy := Highest(Xs(raw)) - Lowest(Xs(raw)), Highest(Ys(raw)) - Lowest(Ys(raw));
      assert sc == (if sx > sy then sx else sy);
      MaxExtentIsOne(sx, sy, sc);
      assert Highest(Xs(c)) - Lowest(Xs(c)) == sx / sc;
      assert Highest(Ys(c)) - Lowest(Ys(c)) == sy / sc;
    }
  }

  lemma MaxExtentIsOne(sx: real, sy: real, sc: real)
    requires sc > 0.0 && sc == (if sx > sy then sx else sy) && sx >= 0.0 && sy >= 0.0
    ensures Max(sx / sc, sy / sc) == 1.0
  {
    if sx > sy {
      assert sc == sx;
      assert sx / sc == 1.0;
      DivMonotone(sy, sx, sc);
    } else {
      assert sc == sy;
      assert sy / sc == 1.0;
      if sx < sy {
        DivMonotone(sx, sy, sc);
      }
    }
  }

  /** The two ends of [lo, hi] land symmetrically around 0.5. */
  lemma NormaliseEnds(lo: real, hi: real, scale: real)
    requires scale > 0.0
    ensures Normalise(lo, lo, hi, scale) + Normalise(hi, lo, hi, scale) == 1.0
    ensures Normalise(hi, lo, hi, scale) - Normalise(lo, lo, hi, scale) == (hi - lo) / scale
  {
    var d := (hi - lo) / 2.0;
    assert lo - (lo + hi) / 2.0 == -d && hi - (lo + hi) / 2.0 == d;
    assert (-d) / scale == -(d / scale);
    assert d / scale + d / scale == (d + d) / scale;
  }

  // ---------------------------------------------------------------------
  // Invariance under translation and uniform scaling

  function Translate(raw: seq<Point>, dx: real, dy: real): (r: seq<Point>)
    ensures |r| == |raw|
  {
    seq(|raw|, i requires 0 <= i < |raw| => raw[i].(x := raw[i].x + dx, y := raw[i].y + dy))
  }

  function Magnify(raw: seq<Point>, k: real): (r: seq<Point>)
    ensures |r| == |raw|
  {
    seq(|raw|, i requires 0 <= i < |raw| => raw[i].(x := Times(k, raw[i].x), y := Times(k, raw[i].y)))
  }

  lemma {:induction false} TranslateArcLength(m: Libm, raw: seq<Point>, dx: real, dy: real, k: nat)
    requires k < |raw|
    ensures ArcLength(m, Translate(raw, dx, dy), k) == ArcLength(m, raw, k)
  {
    if k > 0 {
      TranslateArcLength(m, raw, dx, dy, k - 1);
      var t := Translate(raw, dx, dy);
      assert t[k].x - t[k - 1].x == raw[k].x - raw[k - 1].x;
      assert t[k].y - t[k - 1].y == raw[k].y - raw[k - 1].y;
    }
  }

  lemma {:induction false} TranslateExtremes(v: seq<real>, w: seq<real>, d: real)
    requires |v| == |w| >= 1
    requires forall i :: 0 <= i < |v| ==> w[i] == v[i] + d
    ensures Lowest(w) == Lowest(v) + d && Highest(w) == Highest(v) + d
  {
    IncreasingExtremes(v, w, u => u + d, |v| - 1);
  }

  lemma NormaliseTranslated(v: real, lo: real, hi: real, sc: real, d: real)
    requires sc > 0.0
    ensures Normalise(v + d, lo + d, hi + d, sc) == Normalise(v, lo, hi, sc)
  {
    assert v + d - (lo + d + (hi + d)) / 2.0 == v - (lo + hi) / 2.0;
  }

  /** Translation leaves every normalised coordinate where it was. */
  lemma {:induction false} TranslateNormalised(raw: seq<Point>, dx: real, dy: real)
    requires |raw| >= 1
    ensures Scale(Translate(raw, dx, dy)) == Scale(raw)
    ensures forall i :: 0 <= i < |raw| ==>
      NormX(Translate(raw, dx, dy), i) == NormX(raw, i) && NormY(Translate(raw, dx, dy), i) == NormY(raw, i)
  {
    var t := Translate(raw, dx, dy);
    TranslateExtremes(Xs(raw), Xs(t), dx);
    TranslateExtremes(Ys(raw), Ys(t), dy);
    var lx, hx := Lowest(Xs(raw)), Highest(Xs(raw));
    var ly, hy := Lowest(Ys(raw)), Highest(Ys(raw));
    assert Highest(Xs(t)) - Lowest(Xs(t)) == hx - lx;
    assert Highest(Ys(t)) - Lowest(Ys(t)) == hy - ly;
    var sc := Scale(raw);
    assert Scale(t) == sc;
    ScalePositive(raw);
    forall i | 0 <= i < |raw|
      ensures NormX(t, i) == NormX(raw, i) && NormY(t, i) == NormY(raw, i)
    {
      NormaliseTranslated(raw[i].x, lx, hx, sc, dx);
      NormaliseTranslated(raw[i].y, ly, hy, sc, dy);
    }
  }

  /** Moving every raw sample by (dx, dy) does not change the finished stroke. */
  lemma {:induction false} CanonicalTranslationInvariant(m: Libm, raw: seq<Point>, dx: real, dy: real)
    requires Normalisable(m, raw)
    ensures Normalisable(m, Translate(raw, dx, dy))
    ensures Canonical(m, Translate(raw, dx, dy)) == Canonical(m, raw)
  {
    var t := Translate(raw, dx, dy);
    forall k | 0 <= k < |raw|
      ensures ArcLength(m, t, k) == ArcLength(m, raw, k)
    {
      TranslateArcLength(m, raw, dx, dy, k);
    }
    TranslateNormalised(raw, dx, dy);
    assert TotalLength(m, t) == TotalLength(m, raw);
    forall i | 0 <= i < |raw|
      ensures TimeAt(m, t, i) == TimeAt(m, raw, i)
      ensures t[i].dt == raw[i].dt && t[i].alpha == raw[i].alpha
    {
    }
    SameCanonical(m, t, raw);
  }

  /** Two sample sequences with the same times, normalised coordinates and
      last-point fields finish alike. */
  lemma SameCanonical(m: Libm, a: seq<Point>, b: seq<Point>)
    requires Normalisable(m, a) && Normalisable(m, b) && |a| == |b|
    requires forall i :: 0 <= i < |a| ==> TimeAt(m, a, i) == TimeAt(m, b, i)
    requires forall i :: 0 <= i < |a| ==> NormX(a, i) == NormX(b, i) && NormY(a, i) == NormY(b, i)
    requires forall i :: 0 <= i < |a| ==> a[i].dt == b[i].dt && a[i].alpha == b[i].alpha
    ensures Canonical(m, a) == Canonical(m, b)
  {
    var c, c' := Canonical(m, a), Canonical(m, b);
    forall i | 0 <= i < |a|
      ensures c[i] == c'[i]
    {
      if i + 1 < |a| {
        assert Direction(m, a, i) == Direction(m, b, i);
      }
    }
  }

  lemma {:induction false} MagnifyArcLength(m: Libm, raw: seq<Point>, k: real, j: nat)
    requires j < |raw| && k > 0.0 && Homogeneous(m, k)
    ensures ArcLength(m, Magnify(raw, k), j) == Times(k, ArcLength(m, raw, j))
  {
    if j > 0 {
      MagnifyArcLength(m, raw, k, j - 1);
      var g := Magnify(raw, k);
      var dx, dy := raw[j].x - raw[j - 1].x, raw[j].y - raw[j - 1].y;
      TimesDifference(k, raw[j].x, raw[j - 1].x);
      TimesDifference(k, raw[j].y, raw[j - 1].y);
      assert SegmentLength(m, g, j - 1) == m.hypot(Times(k, dx), Times(k, dy));
      assert SegmentLength(m, g, j - 1) == Times(k, SegmentLength(m, raw, j - 1));
      TimesSum(k, ArcLength(m, raw, j - 1), SegmentLength(m, raw, j - 1));
    }
  }

  lemma TimesSum(k: real, a: real, b: real)
    ensures Times(k, a) + Times(k, b) == Times(k, a + b)
  {
  }

  lemma TimesDifference(k: real, a: real, b: real)
    ensures Times(k, a) - Times(k, b) == Times(k, a - b)
  {
  }

  lemma ScaledQuotient(a: real, b: real, k: real)
    requires b != 0.0 && k > 0.0
    ensures Times(k, a) / Times(k, b) == a / b
  {
    assert Times(k, a) / Times(k, b) == (k * a) / (k * b);
  }

  /** Magnifying by k multiplies every arc length by k, so the normalised
      times are unchanged. */
  lemma {:induction false} MagnifyTimes(m: Libm, raw: seq<Point>, k: real)
    requires Normalisable(m, raw) && k > 0.0 && Homogeneous(m, k)
    ensures Normalisable(m, Magnify(raw, k))
    ensures forall j :: 0 <= j < |raw| ==> TimeAt(m, Magnify(raw, k), j) == TimeAt(m, raw, j)
  {
    var g := Magnify(raw, k);
    MagnifyArcLength(m, raw, k, |raw| - 1);
    assert TotalLength(m, g) == Times(k, TotalLength(m, raw)) > 0.0;
    forall j | 0 <= j < |raw|
      ensures TimeAt(m, g, j) == TimeAt(m, raw, j)
    {
      MagnifyArcLength(m, raw, k, j);
      var a, b := ArcLength(m, raw, j), TotalLength(m, raw);
      ScaledQuotient(a, b, k);
      assert ArcLength(m, g, j) == Times(k, a);
      assert TotalLength(m, g) == Times(k, b);
      assert TimeAt(m, g, j) == Times(k, a) / Times(k, b);
    }
  }

  /** Min and max commute with a positive factor; the products are passed
      in as wx and wl to keep the callers' arithmetic linear. */
  lemma MinMaxStep(x: real, l: real, k: real, wx: real, wl: real)
    requires k > 0.0 && wx == Times(k, x) && wl == Times(k, l)
    ensures Min(wx, wl) == Times(k, Min(x, l))
    ensures Max(wx, wl) == Times(k, Max(x, l))
  {
    MulMonotone(x, l, k);
    MulMonotone(l, x, k);
  }

  lemma {:induction false} MagnifyLowestUpTo(v: seq<real>, w: seq<real>, k: real, j: nat)
    requires |v| == |w| && j < |v| && k > 0.0
    requires forall i :: 0 <= i < |v| ==> w[i] == Times(k, v[i])
    ensures LowestUpTo(w, j) == Times(k, LowestUpTo(v, j))
  {
    if j > 0 {
      MagnifyLowestUpTo(v, w, k, j - 1);
      MinMaxStep(v[j], LowestUpTo(v, j - 1), k, w[j], LowestUpTo(w, j - 1));
    }
  }

  lemma {:induction false} MagnifyHighestUpTo(v: seq<real>, w: seq<real>, k: real, j: nat)
    requires |v| == |w| && j < |v| && k > 0.0
    requires forall i :: 0 <= i < |v| ==> w[i] == Times(k, v[i])
    ensures HighestUpTo(w, j) == Times(k, HighestUpTo(v, j))
  {
    if j > 0 {
      MagnifyHighestUpTo(v, w, k, j - 1);
      MinMaxStep(v[j], HighestUpTo(v, j - 1), k, w[j], HighestUpTo(w, j - 1));
    }
  }

  lemma ExtentStep(lo: real, hi: real, k: real, lw: real, hw: real)
    requires lw == Times(k, lo) && hw == Times(k, hi)
    ensures hw - lw == Times(k, hi - lo)
  {
  }

  lemma NormaliseStep(v: real, lo: real, hi: real, sc: real, k: real,
                      vw: real, low: real, hiw: real, scw: real)
    requires sc > 0.0 && k > 0.0
    requires vw == Times(k, v) && low == Times(k, lo) && hiw == Times(k, hi) && scw == Times(k, sc)
    ensures scw > 0.0
    ensures Normalise(vw, low, hiw, scw) == Normalise(v, lo, hi, sc)
  {
    assert vw - (low + hiw) / 2.0 == k * (v - (lo + hi) / 2.0);
    ScaledQuotient(v - (lo + hi) / 2.0, sc, k);
    assert scw == k * sc;
  }

  lemma ScaleStep(sx: real, sy: real, k: real, sxw: real, syw: real)
    requires k > 0.0 && sxw == Times(k, sx) && syw == Times(k, sy)
    requires Max(sx, sy) >= MinScale && Max(sxw, syw) >= MinScale
    ensures ScaleOf(sxw, syw) == Times(k, ScaleOf(sx, sy))
  {
    MinMaxStep(sx, sy, k, sxw, syw);
  }

  /** Magnifying by k magnifies the bounding box by k. */
  lemma {:induction false} MagnifyBox(raw: seq<Point>, k: real)
    requires |raw| >= 1 && k > 0.0
    ensures Lowest(Xs(Magnify(raw, k))) == Times(k, Lowest(Xs(raw)))
    ensures Highest(Xs(Magnify(raw, k))) == Times(k, Highest(Xs(raw)))
    ensures Lowest(Ys(Magnify(raw, k))) == Times(k, Lowest(Ys(raw)))
    ensures Highest(Ys(Magnify(raw, k))) == Times(k, Highest(Ys(raw)))
  {
    var g := Magnify(raw, k);
    var xs, ys, xs', ys' := Xs(raw), Ys(raw), Xs(g), Ys(g);
    MagnifyLowestUpTo(xs, xs', k, |raw| - 1);
    MagnifyHighestUpTo(xs, xs', k, |raw| - 1);
    MagnifyLowestUpTo(ys, ys', k, |raw| - 1);
    MagnifyHighestUpTo(ys, ys', k, |raw| - 1);
  }

  /** Magnifying by k does not move any normalised coordinate, as long as
      neither stroke is a dot. */
  lemma {:induction false} MagnifyNormalised(raw: seq<Point>, k: real)
    requires |raw| >= 1 && k > 0.0
    requires NotDot(raw) && NotDot(Magnify(raw, k))
    ensures forall i :: 0 <= i < |raw| ==>
      NormX(Magnify(raw, k), i) == NormX(raw, i) && NormY(Magnify(raw, k), i) == NormY(raw, i)
  {
    var g := Magnify(raw, k);
    MagnifyBox(raw, k);
    var lx, hx, ly, hy := Lowest(Xs(raw)), Highest(Xs(raw)), Lowest(Ys(raw)), Highest(Ys(raw));
    var lx', hx', ly', hy' := Lowest(Xs(g)), Highest(Xs(g)), Lowest(Ys(g)), Highest(Ys(g));
    ExtentStep(lx, hx, k, lx', hx');
    ExtentStep(ly, hy, k, ly', hy');
    ScaleStep(hx - lx, hy - ly, k, hx' - lx', hy' - ly');
    var sc, sc' := Scale(raw), Scale(g);
    ScalePositive(raw);
    forall i | 0 <= i < |raw|
      ensures NormX(g, i) == NormX(raw, i) && NormY(g, i) == NormY(raw, i)
    {
      NormaliseStep(raw[i].x, lx, hx, sc, k, g[i].x, lx', hx', sc');
      NormaliseStep(raw[i].y, ly, hy, sc, k, g[i].y, ly', hy', sc');
    }
  }

  /** Magnifying every raw sample by k > 0 does not change the finished
      stroke, provided hypot is homogeneous and neither stroke is a dot (the
      MinScale floor is the one place where size matters). */
  lemma {:induction false} CanonicalScaleInvariant(m: Libm, raw: seq<Point>, k: real)
    requires Normalisable(m, raw) && k > 0.0 && Homogeneous(m, k)
    requires NotDot(raw) && NotDot(Magnify(raw, k))
    ensures Normalisable(m, Magnify(raw, k))
    ensures Canonical(m, Magnify(raw, k)) == Canonical(m, raw)
  {
    var g := Magnify(raw, k);
    MagnifyTimes(m, raw, k);
    MagnifyNormalised(raw, k);
    forall i | 0 <= i < |raw|
      ensures TimeAt(m, g, i) == TimeAt(m, raw, i)
      ensures g[i].dt == raw[i].dt && g[i].alpha == raw[i].alpha
    {
    }
    SameCanonical(m, g, raw);
  }
}
