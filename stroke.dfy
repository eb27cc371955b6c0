/**
 * The stroke record and the two operations that build it (stroke.h,
 * stroke.c): appending a raw sample and finishing the stroke in place, plus
 * the angle difference the comparison is built on.
 */
module Strokes {
  import opened Geometry

  /** MAX_STROKE_POINTS: the capacity of a stroke. */
  const MaxStrokePoints: int := 512

  /** stroke_infinity: the cost of two strokes that do not match at all. */
  const StrokeInfinity: real := 0.2

  /** epsilon: the smallest time step the comparison walks. */
  const Epsilon: real := 0.000001

  /** A stroke: a fixed buffer of MaxStrokePoints points of which the first
      n are in use, and a flag telling whether it has been finished. */
  class Stroke {
    var n: int
    var isFinished: bool
    const p: array<Point>

    ghost predicate Valid()
      reads this
    {
      p.Length == MaxStrokePoints && 0 <= n <= MaxStrokePoints
    }

    /** The points in use. */
    function Points(): (pts: seq<Point>)
      requires Valid()
      reads this, p
      ensures |pts| == n
    {
      p[..n]
    }

    /** A zeroed stroke, as the callers obtain it with calloc or a zeroed
        local. */
    constructor ()
      ensures Valid() && n == 0 && !isFinished && fresh(p)
      ensures forall i :: 0 <= i < p.Length ==> p[i] == Point(0.0, 0.0, 0.0, 0.0, 0.0)
    {
      n := 0;
      isFinished := false;
      p := new Point[MaxStrokePoints](_ => Point(0.0, 0.0, 0.0, 0.0, 0.0));
    }

    /** A zeroed stroke into which a stored row's points are copied, as the
        database layer rebuilds each template; the flag stays clear. */
    constructor FromPoints(pts: seq<Point>)
      requires |pts| <= MaxStrokePoints
      ensures Valid() && Points() == pts && !isFinished && fresh(p)
      ensures forall i :: |pts| <= i < p.Length ==> p[i] == Point(0.0, 0.0, 0.0, 0.0, 0.0)
    {
      n := |pts|;
      isFinished := false;
      p := new Point[MaxStrokePoints](i => if 0 <= i < |pts| then pts[i] else Point(0.0, 0.0, 0.0, 0.0, 0.0));
    }

    /** stroke_add_point: store (x, y) in the next free slot. The slot's
        other fields keep whatever they held. */
    method AddPoint(x: real, y: real)
      requires Valid() && n < MaxStrokePoints && !isFinished
      modifies this, p
      ensures Valid() && n == old(n) + 1 && !isFinished
      ensures p[..] == old(p[..])[old(n) := old(p[n]).(x := x, y := y)]
      ensures Points() == old(Points()) + [old(p[n]).(x := x, y := y)]
    {
      p[n] := p[n].(x := x, y := y);
      n := n + 1;
    }

    /** stroke_finish: turn the raw samples into the canonical form of
        Geometry.Canonical, in five passes over the buffer. A finished
        stroke is left alone; a stroke without points only gets p[0].t = 0. */
    method Finish(m: Libm)
      requires Valid()
      requires !isFinished ==> n == 0 || Normalisable(m, Points())
      modifies this, p
      ensures Valid() && isFinished && n == old(n)
      ensures old(isFinished) ==> p[..] == old(p[..])
      ensures !old(isFinished) && n == 0 ==> p[..] == old(p[..])[0 := old(p[0]).(t := 0.0)]
      ensures !old(isFinished) && n > 0 ==>
        Points() == Canonical(m, old(Points())) && p[n..] == old(p[n..])
    {
      if isFinished {
        return;
      }
      isFinished := true;
      p[0] := p[0].(t := 0.0);
      if n == 0 {
        return;
      }
      ghost var raw := old(Points());
      Canonicalise(m, raw);
      CanonicalPoints(m, raw, p[..n]);
      assert p[n..] == old(p[n..]);
    }

    /** The five passes of stroke_finish over a stroke with points. */
    method Canonicalise(m: Libm, ghost raw: seq<Point>)
      requires Valid() && |raw| == n >= 1 && Normalisable(m, raw)
      requires p[0] == raw[0].(t := 0.0)
      requires forall j :: 0 < j < n ==> p[j] == raw[j]
      modifies p
      ensures forall j :: 0 <= j < n ==> p[j] == CanonicalPoint(m, raw, j)
      ensures forall j :: n <= j < p.Length ==> p[j] == old(p[j])
    {
      PlaceAll(m, raw);
      ghost var placed := p[..n];
      assert forall j :: 0 <= j < n ==> placed[j] == Placed(m, raw, j);
      SegmentPass(m, placed);
      CanonicalBySegments(m, raw, placed);
      forall j | 0 <= j < n
        ensures p[j] == CanonicalPoint(m, raw, j)
      {
        if j < n - 1 {
          assert p[j] == Segment(m, placed[j], placed[j + 1]);
        }
      }
    }

    /** The first four passes: times, then coordinates, normalised. */
    method PlaceAll(m: Libm, ghost raw: seq<Point>)
      requires Valid() && |raw| == n >= 1 && Normalisable(m, raw)
      requires p[0] == raw[0].(t := 0.0)
      requires forall j :: 0 < j < n ==> p[j] == raw[j]
      modifies p
      ensures forall j :: 0 <= j < n ==> p[j] == Placed(m, raw, j)
      ensures forall j :: n <= j < p.Length ==> p[j] == old(p[j])
    {
      var total := LengthPass(m, raw);
      TimePass(m, raw, total);
      var minX, maxX, minY, maxY := BoxPass(raw);
      var scaleX := maxX - minX;
      var scaleY := maxY - minY;
      var scale := if scaleX > scaleY then scaleX else scaleY;
      if scale < 0.001 {
        scale := 1.0;
      }
      ScalePositive(raw);
      PlacePass(m, raw, minX, maxX, minY, maxY, scale);
    }

    /** First pass of stroke_finish: the running arc length becomes the
        raw time of every point; returns the total length. */
    method LengthPass(m: Libm, ghost raw: seq<Point>) returns (total: real)
      requires Valid() && |raw| == n >= 1
      requires p[0] == raw[0].(t := 0.0)
      requires forall j :: 0 < j < n ==> p[j] == raw[j]
      modifies p
      ensures total == TotalLength(m, raw)
      ensures forall j :: 0 <= j < n ==> p[j] == Measured(m, raw, j)
      ensures forall j :: n <= j < p.Length ==> p[j] == old(p[j])
    {
      total := 0.0;
      var i := 0;
      while i < n - 1
        invariant 0 <= i <= n - 1
        invariant total == ArcLength(m, raw, i)
        invariant forall j :: 0 <= j <= i ==> p[j] == Measured(m, raw, j)
        invariant forall j :: i < j < n ==> p[j] == raw[j]
        invariant forall j :: n <= j < p.Length ==> p[j] == old(p[j])
      {
        assert p[i + 1] == raw[i + 1] && p[i].x == raw[i].x && p[i].y == raw[i].y;
        total := total + m.hypot(p[i + 1].x - p[i].x, p[i + 1].y - p[i].y);
        assert total == ArcLength(m, raw, i + 1);
        p[i + 1] := p[i + 1].(t := total);
        i := i + 1;
      }
    }

    /** Second pass: divide every time by the total length. */
    method TimePass(ghost m: Libm, ghost raw: seq<Point>, total: real)
      requires Valid() && |raw| == n && Normalisable(m, raw) && total == TotalLength(m, raw)
      requires forall j :: 0 <= j < n ==> p[j] == Measured(m, raw, j)
      modifies p
      ensures forall j :: 0 <= j < n ==> p[j] == Timed(m, raw, j)
      ensures forall j :: n <= j < p.Length ==> p[j] == old(p[j])
    {
      var i := 0;
      while i < n
        invariant 0 <= i <= n
        invariant forall j :: 0 <= j < i ==> p[j] == Timed(m, raw, j)
        invariant forall j :: i <= j < n ==> p[j] == Measured(m, raw, j)
        invariant forall j :: n <= j < p.Length ==> p[j] == old(p[j])
      {
        assert p[i].t / total == TimeAt(m, raw, i);
        p[i] := p[i].(t := p[i].t / total);
        i := i + 1;
      }
    }

    /** Third pass: the bounding box of the raw coordinates. */
    method BoxPass(ghost raw: seq<Point>) returns (minX: real, maxX: real, minY: real, maxY: real)
      requires Valid() && |raw| == n >= 1
      requires forall j :: 0 <= j < n ==> p[j].x == raw[j].x && p[j].y == raw[j].y
      ensures minX == Lowest(Xs(raw)) && maxX == Highest(Xs(raw))
      ensures minY == Lowest(Ys(raw)) && maxY == Highest(Ys(raw))
    {
      ghost var xs, ys := Xs(raw), Ys(raw);
      minX, minY := p[0].x, p[0].y;
      maxX, maxY := minX, minY;
      var i := 1;
      while i < n
        invariant 1 <= i <= n
        invariant minX == LowestUpTo(xs, i - 1) && maxX == HighestUpTo(xs, i - 1)
        invariant minY == LowestUpTo(ys, i - 1) && maxY == HighestUpTo(ys, i - 1)
      {
        minX := Min(p[i].x, minX);
        maxX := Max(p[i].x, maxX);
        minY := Min(p[i].y, minY);
        maxY := Max(p[i].y, maxY);
        i := i + 1;
      }
    }

    /** Fourth pass: centre the box at (0.5, 0.5) and bring its larger side
        to 1. */
    method PlacePass(ghost m: Libm, ghost raw: seq<Point>, minX: real, maxX: real, minY: real, maxY: real, scale: real)
      requires Valid() && |raw| == n && Normalisable(m, raw)
      requires minX == Lowest(Xs(raw)) && maxX == Highest(Xs(raw))
      requires minY == Lowest(Ys(raw)) && maxY == Highest(Ys(raw))
      requires scale == Scale(raw) > 0.0
      requires forall j :: 0 <= j < n ==> p[j] == Timed(m, raw, j)
      modifies p
      ensures forall j :: 0 <= j < n ==> p[j] == Placed(m, raw, j)
      ensures forall j :: n <= j < p.Length ==> p[j] == old(p[j])
    {
      var i := 0;
      while i < n
        invariant 0 <= i <= n
        invariant forall j :: 0 <= j < i ==> p[j] == Placed(m, raw, j)
        invariant forall j :: i <= j < n ==> p[j] == Timed(m, raw, j)
        invariant forall j :: n <= j < p.Length ==> p[j] == old(p[j])
      {
        assert (p[i].x - (minX + maxX) / 2.0) / scale + 0.5 == NormX(raw, i);
        assert (p[i].y - (minY + maxY) / 2.0) / scale + 0.5 == NormY(raw, i);
        p[i] := p[i].(x := (p[i].x - (minX + maxX) / 2.0) / scale + 0.5,
                      y := (p[i].y - (minY + maxY) / 2.0) / scale + 0.5);
        i := i + 1;
      }
    }

    /** Fifth pass: every segment's share of the time and its direction,
        from the points as the fourth pass left them. */
    method SegmentPass(m: Libm, ghost placed: seq<Point>)
      requires Valid() && |placed| == n >= 1 && p[..n] == placed
      modifies p
      ensures forall j :: 0 <= j < n - 1 ==> p[j] == Segment(m, placed[j], placed[j + 1])
      ensures p[n - 1] == placed[n - 1]
      ensures forall j :: n <= j < p.Length ==> p[j] == old(p[j])
    {
      var i := 0;
      while i < n - 1
        invariant 0 <= i <= n - 1
        invariant forall j :: 0 <= j < i ==> p[j] == Segment(m, placed[j], placed[j + 1])
        invariant forall j :: i <= j < n ==> p[j] == placed[j]
        invariant forall j :: n <= j < p.Length ==> p[j] == old(p[j])
      {
        p[i] := p[i].(dt := p[i + 1].t - p[i].t, alpha := m.atan2(p[i + 1].y - p[i].y, p[i + 1].x - p[i].x) / Pi);
        i := i + 1;
      }
    }
  }

  /** The fifth pass's update of a point from itself and the next one. */
  function Segment(m: Libm, cur: Point, next: Point): Point
  {
    cur.(dt := next.t - cur.t, alpha := m.atan2(next.y - cur.y, next.x - cur.x) / Pi)
  }

  /** The fifth pass turns the placed points into the canonical form. */
  lemma CanonicalBySegments(m: Libm, raw: seq<Point>, placed: seq<Point>)
    requires Normalisable(m, raw) && |placed| == |raw|
    requires forall j :: 0 <= j < |raw| ==> placed[j] == Placed(m, raw, j)
    ensures forall j :: 0 <= j < |raw| - 1 ==> Segment(m, placed[j], placed[j + 1]) == CanonicalPoint(m, raw, j)
    ensures placed[|raw| - 1] == CanonicalPoint(m, raw, |raw| - 1)
  {
  }

  // ---------------------------------------------------------------------
  // Angle differences

  function Abs(r: real): real
  {
    if r < 0.0 then -r else r
  }

  /** angle_difference: alpha - beta brought back into [-1, 1] by one turn
      (2, since angles are fractions of pi). */
  function AngleDifference(alpha: real, beta: real): (r: real)
    ensures r == alpha - beta || r == alpha - beta + 2.0 || r == alpha - beta - 2.0
    ensures -3.0 <= alpha - beta <= 3.0 ==> -1.0 <= r <= 1.0
  {
    var d := alpha - beta;
    if d < -1.0 then d + 2.0 else if d > 1.0 then d - 2.0 else d
  }

  /** For directions in [-1, 1] the difference is the shortest way round:
      no other representative of alpha - beta modulo a full turn is closer
      to zero. */
  lemma AngleDifferenceShortest(alpha: real, beta: real, turns: int)
    requires -1.0 <= alpha <= 1.0 && -1.0 <= beta <= 1.0
    ensures Abs(AngleDifference(alpha, beta)) <= Abs(alpha - beta + 2.0 * turns as real)
  {
    var r := AngleDifference(alpha, beta);
    if turns >= 1 {
      assert 2.0 * turns as real >= 2.0;
    } else if turns <= -1 {
      assert 2.0 * turns as real <= -2.0;
    }
  }

  /** Swapping the two directions negates the difference, and a direction
      differs from itself by nothing. */
  lemma AngleDifferenceAntisymmetric(alpha: real, beta: real)
    ensures AngleDifference(beta, alpha) == -AngleDifference(alpha, beta)
    ensures AngleDifference(alpha, alpha) == 0.0
  {
  }

  /** Directions just either side of the negative x axis are close:
      0.9 and -0.9 differ by 0.2 going round, not by 1.8. */
  lemma AngleDifferenceWraps()
    ensures AngleDifference(0.9, -0.9) == -0.2
    ensures Abs(AngleDifference(0.9, -0.9)) == 0.2
  {
  }

  /** stroke_angle_difference: how far apart the directions of segment i of
      a and segment j of b are. */
  function StrokeAngleDifference(a: Stroke, b: Stroke, i: nat, j: nat): (r: real)
    requires a.Valid() && b.Valid() && i < MaxStrokePoints && j < MaxStrokePoints
    reads a, a.p, b, b.p
    ensures r >= 0.0
    ensures -1.0 <= a.p[i].alpha <= 1.0 && -1.0 <= b.p[j].alpha <= 1.0 ==> r <= 1.0
  {
    Abs(AngleDifference(a.p[i].alpha, b.p[j].alpha))
  }

  /** The stroke angle difference does not depend on the order of the
      strokes. */
  lemma StrokeAngleDifferenceSymmetric(a: Stroke, b: Stroke, i: nat, j: nat)
    requires a.Valid() && b.Valid() && i < MaxStrokePoints && j < MaxStrokePoints
    ensures StrokeAngleDifference(a, b, i, j) == StrokeAngleDifference(b, a, j, i)
  {
    AngleDifferenceAntisymmetric(a.p[i].alpha, b.p[j].alpha);
  }

  /** Points that agree with the canonical form one by one are the
      canonical form. */
  lemma CanonicalPoints(m: Libm, raw: seq<Point>, pts: seq<Point>)
    requires Normalisable(m, raw) && |pts| == |raw|
    requires forall j :: 0 <= j < |pts| ==> pts[j] == CanonicalPoint(m, raw, j)
    ensures pts == Canonical(m, raw)
  {
  }

  /** Point j after the first pass of Finish: its time is the arc length
      up to it. */
  ghost function Measured(m: Libm, raw: seq<Point>, j: nat): Point
    requires j < |raw|
  {
    raw[j].(t := ArcLength(m, raw, j))
  }

  /** Point j after the second pass: its time is normalised. */
  ghost function Timed(m: Libm, raw: seq<Point>, j: nat): Point
    requires Normalisable(m, raw) && j < |raw|
  {
    raw[j].(t := TimeAt(m, raw, j))
  }

  /** Point j after the time and coordinate passes of Finish, before the
      segment pass. */
  ghost function Placed(m: Libm, raw: seq<Point>, j: nat): Point
    requires Normalisable(m, raw) && j < |raw|
  {
    raw[j].(x := NormX(raw, j), y := NormY(raw, j), t := TimeAt(m, raw, j))
  }
}
