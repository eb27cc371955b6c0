/**
 * Comparing two finished strokes (stroke.c, step and stroke_compare): a
 * dynamic programme over pairs of points that approximates the integral of
 * the squared angle difference over reparametrisations whose slope stays
 * between 1/2.2 and 2.2.
 *
 * The C keeps its tables as flat M*N arrays indexed x*N + y; here they are
 * two-dimensional arrays indexed [x, y]. Cell (m, n) is the flat M*N - 1.
 */
module Compare {
  import opened Geometry
  import opened Strokes

  // ---------------------------------------------------------------------
  // One candidate step from (x, y) to (x2, y2)

  /** The step guard of `step`: both time spans at least epsilon and
      neither more than 2.2 times the other. */
  predicate Viable(dtx: real, dty: real)
  {
    dtx < dty * 2.2 && dty < dtx * 2.2 && dtx >= Epsilon && dty >= Epsilon
  }

  /** Where point i falls in the span [tx, tx + dtx], as a fraction. */
  function Fraction(s: seq<Point>, t0: real, dt: real, i: nat): real
    requires i < |s| && dt != 0.0
  {
    (s[i].t - t0) / dt
  }

  /** A piece of the walk: its length times its squared angle difference. */
  function Weighted(w: real, ad: real): real
  {
    w * ad
  }

  /** pow(r, 2). */
  function Square(r: real): (q: real)
    ensures q >= 0.0
  {
    r * r
  }

  lemma SquareAtMostOne(r: real)
    requires -1.0 <= r <= 1.0
    ensures Square(r) <= 1.0
  {
    var a := if r < 0.0 then -r else r;
    MulMonotoneLe(a, 1.0, a);
    assert a * a <= a;
    assert a * a == r * r;
  }

  lemma MulMonotoneLe(a: real, b: real, s: real)
    requires 0.0 <= s && a <= b
    ensures a * s <= b * s
  {
  }

  /** The integral `step` accumulates from state (i, j, curT): the walk
      along the merged time grid of a's points x..x2 and b's points y..y2,
      each piece weighted by its length in the unit interval. */
  function WalkFrom(A: seq<Point>, B: seq<Point>, x: nat, y: nat, x2: nat, y2: nat,
                    i: nat, j: nat, curT: real): real
    requires x < x2 < |A| && y < y2 < |B|
    requires Viable(A[x2].t - A[x].t, B[y2].t - B[y].t)
    requires i < x2 && j < y2
    decreases (x2 - i) + (y2 - j)
  {
    var dtx, dty := A[x2].t - A[x].t, B[y2].t - B[y].t;
    var nextTx := Fraction(A, A[x].t, dtx, i + 1);
    var nextTy := Fraction(B, B[y].t, dty, j + 1);
    var ad := Square(AngleDifference(A[i].alpha, B[j].alpha));
    var nextT := Min(nextTx, nextTy);
    FractionAtEnd(A, x, x2);
    FractionAtEnd(B, y, y2);
    if nextT >= 1.0 - Epsilon then
      Weighted(1.0 - curT, ad)
    else if nextTx < nextTy then
      Weighted(nextT - curT, ad) + WalkFrom(A, B, x, y, x2, y2, i + 1, j, nextT)
    else
      Weighted(nextT - curT, ad) + WalkFrom(A, B, x, y, x2, y2, i, j + 1, nextT)
  }

  /** The end of the span sits at fraction 1, so the walk never runs past
      it. */
  lemma FractionAtEnd(s: seq<Point>, x: nat, x2: nat)
    requires x < x2 < |s| && s[x2].t - s[x].t != 0.0
    ensures Fraction(s, s[x].t, s[x2].t - s[x].t, x2) == 1.0
  {
    var d := s[x2].t - s[x].t;
    assert d / d == 1.0;
  }

  /** What a viable step from (x, y) to (x2, y2) adds to the distance. */
  function EdgeCost(A: seq<Point>, B: seq<Point>, x: nat, y: nat, x2: nat, y2: nat): real
    requires x < x2 < |A| && y < y2 < |B|
    requires Viable(A[x2].t - A[x].t, B[y2].t - B[y].t)
  {
    Weighted((A[x2].t - A[x].t) + (B[y2].t - B[y].t), WalkFrom(A, B, x, y, x2, y2, x, y, 0.0))
  }

  /** The strokes the comparison is meant for: times that never decrease
      and segment directions in [-1, 1] (what Finish produces). */
  ghost predicate Comparable(s: seq<Point>)
  {
    forall i :: 0 <= i < |s| - 1 ==> s[i].t <= s[i + 1].t && -1.0 <= s[i].alpha <= 1.0
  }

  /** What Finish produces is comparable, for a sound math library. */
  lemma CanonicalComparable(m: Libm, raw: seq<Point>)
    requires Sound(m) && Normalisable(m, raw)
    ensures Comparable(Canonical(m, raw))
  {
    CanonicalTimes(m, raw);
    CanonicalAngles(m, raw);
  }

  // ---------------------------------------------------------------------
  // Properties of one step

  /** On comparable strokes the walk is a weighted average of squared angle
      differences, with weights that sum to what is left of [0, 1]. */
  lemma {:induction false} WalkBounds(A: seq<Point>, B: seq<Point>, x: nat, y: nat, x2: nat, y2: nat,
                                      i: nat, j: nat, curT: real)
    requires x < x2 < |A| && y < y2 < |B|
    requires Viable(A[x2].t - A[x].t, B[y2].t - B[y].t)
    requires x <= i < x2 && y <= j < y2
    requires Comparable(A) && Comparable(B)
    requires 0.0 <= curT <= 1.0
    requires curT <= Fraction(A, A[x].t, A[x2].t - A[x].t, i + 1)
    requires curT <= Fraction(B, B[y].t, B[y2].t - B[y].t, j + 1)
    ensures 0.0 <= WalkFrom(A, B, x, y, x2, y2, i, j, curT) <= 1.0 - curT
    decreases (x2 - i) + (y2 - j)
  {
    var dtx, dty := A[x2].t - A[x].t, B[y2].t - B[y].t;
    var nextTx := Fraction(A, A[x].t, dtx, i + 1);
    var nextTy := Fraction(B, B[y].t, dty, j + 1);
    var ad := Square(AngleDifference(A[i].alpha, B[j].alpha));
    SquareAtMostOne(AngleDifference(A[i].alpha, B[j].alpha));
    var nextT := Min(nextTx, nextTy);
    FractionAtEnd(A, x, x2);
    FractionAtEnd(B, y, y2);
    if nextT >= 1.0 - Epsilon {
      WeightedBounds(1.0 - curT, ad);
    } else if nextTx < nextTy {
      FractionMonotone(A, A[x].t, dtx, i + 1);
      WalkBounds(A, B, x, y, x2, y2, i + 1, j, nextT);
      WeightedBounds(nextT - curT, ad);
    } else {
      FractionMonotone(B, B[y].t, dty, j + 1);
      WalkBounds(A, B, x, y, x2, y2, i, j + 1, nextT);
      WeightedBounds(nextT - curT, ad);
    }
  }

  lemma WeightedBounds(w: real, ad: real)
    requires w >= 0.0 && 0.0 <= ad <= 1.0
    ensures 0.0 <= Weighted(w, ad) <= w
  {
    MulMonotoneLe(ad, 1.0, w);
    assert ad * w <= 1.0 * w;
    assert w * ad == ad * w;
  }

  /** Consecutive fractions never decrease on a comparable stroke. */
  lemma FractionMonotone(s: seq<Point>, t0: real, dt: real, i: nat)
    requires i + 1 < |s| && dt > 0.0 && Comparable(s)
    ensures Fraction(s, t0, dt, i) <= Fraction(s, t0, dt, i + 1)
  {
    assert s[i].t <= s[i + 1].t;
    if s[i].t < s[i + 1].t {
      DivMonotone(s[i].t - t0, s[i + 1].t - t0, dt);
    }
  }

  /** Where the two strokes point the same way throughout the window, the
      walk costs nothing. */
  lemma {:induction false} WalkParallel(A: seq<Point>, B: seq<Point>, x: nat, y: nat, x2: nat, y2: nat,
                                        i: nat, j: nat, curT: real)
    requires x < x2 < |A| && y < y2 < |B|
    requires Viable(A[x2].t - A[x].t, B[y2].t - B[y].t)
    requires x <= i < x2 && y <= j < y2
    requires forall i', j' :: x <= i' < x2 && y <= j' < y2 ==> A[i'].alpha == B[j'].alpha
    ensures WalkFrom(A, B, x, y, x2, y2, i, j, curT) == 0.0
    decreases (x2 - i) + (y2 - j)
  {
    var dtx, dty := A[x2].t - A[x].t, B[y2].t - B[y].t;
    var nextTx := Fraction(A, A[x].t, dtx, i + 1);
    var nextTy := Fraction(B, B[y].t, dty, j + 1);
    assert AngleDifference(A[i].alpha, B[j].alpha) == 0.0;
    var nextT := Min(nextTx, nextTy);
    FractionAtEnd(A, x, x2);
    FractionAtEnd(B, y, y2);
    if nextT >= 1.0 - Epsilon {
    } else if nextTx < nextTy {
      WalkParallel(A, B, x, y, x2, y2, i + 1, j, nextT);
    } else {
      WalkParallel(A, B, x, y, x2, y2, i, j + 1, nextT);
    }
  }

  /** On comparable strokes an edge costs between nothing and the sum of
      its two time spans. */
  lemma EdgeCostBounds(A: seq<Point>, B: seq<Point>, x: nat, y: nat, x2: nat, y2: nat)
    requires x < x2 < |A| && y < y2 < |B|
    requires Viable(A[x2].t - A[x].t, B[y2].t - B[y].t)
    requires Comparable(A) && Comparable(B)
    ensures 0.0 <= EdgeCost(A, B, x, y, x2, y2) <= (A[x2].t - A[x].t) + (B[y2].t - B[y].t)
  {
    var dtx, dty := A[x2].t - A[x].t, B[y2].t - B[y].t;
    FractionMonotone(A, A[x].t, dtx, x);
    FractionMonotone(B, B[y].t, dty, y);
    assert Fraction(A, A[x].t, dtx, x) == 0.0;
    assert Fraction(B, B[y].t, dty, y) == 0.0;
    WalkBounds(A, B, x, y, x2, y2, x, y, 0.0);
    WeightedBounds(dtx + dty, WalkFrom(A, B, x, y, x2, y2, x, y, 0.0));
  }

  // ---------------------------------------------------------------------
  // The tables

  /** The cells stroke_compare fills: every (i, j) with i < m and j < n,
      plus the final cell (m, n). Row m and column n are otherwise never
      written or read. */
  predicate InGrid(M: int, N: int, i: int, j: int)
  {
    (0 <= i < M - 1 && 0 <= j < N - 1) || (i == M - 1 && j == N - 1)
  }

  /** dist, prev_x and prev_y as M by N tables. */
  ghost predicate Shaped(A: seq<Point>, B: seq<Point>, dist: array2<real>, prevX: array2<int>, prevY: array2<int>)
    reads {}
  {
    && |A| >= 1 && |B| >= 1
    && dist.Length0 == prevX.Length0 == prevY.Length0 == |A|
    && dist.Length1 == prevX.Length1 == prevY.Length1 == |B|
    && prevX != prevY
  }

  /** Cell (i, j) was reached by a viable step from its recorded
      predecessor, which was itself reached, in a row before `row`, and
      whose window holds (i, j); its distance is the predecessor's plus
      the cost of that step. */
  ghost predicate Linked(A: seq<Point>, B: seq<Point>, dist: array2<real>, prevX: array2<int>, prevY: array2<int>,
                         i: int, j: int, row: int)
    requires Shaped(A, B, dist, prevX, prevY)
    requires 0 <= i < |A| && 0 <= j < |B|
    reads dist, prevX, prevY
  {
    var pi, pj := prevX[i, j], prevY[i, j];
    && 0 <= pi < i && 0 <= pj < j && pi < row
    && Viable(A[i].t - A[pi].t, B[j].t - B[pj].t)
    && (i, j) in Window(A, B, pi, pj, pi, pj, 0)
    && dist[pi, pj] < StrokeInfinity
    && dist[i, j] == dist[pi, pj] + EdgeCost(A, B, pi, pj, i, j)
  }

  /** What the tables satisfy while rows before `row` are being expanded. */
  ghost predicate GridInv(A: seq<Point>, B: seq<Point>, dist: array2<real>, prevX: array2<int>, prevY: array2<int>,
                          row: int)
    reads dist, prevX, prevY
  {
    && Shaped(A, B, dist, prevX, prevY)
    && dist[0, 0] == 0.0
    && (forall i, j :: InGrid(|A|, |B|, i, j) ==> dist[i, j] <= StrokeInfinity)
    && (forall i, j {:trigger Linked(A, B, dist, prevX, prevY, i, j, row)} ::
          InGrid(|A|, |B|, i, j) && (i, j) != (0, 0) && dist[i, j] < StrokeInfinity ==>
          Linked(A, B, dist, prevX, prevY, i, j, row))
    && (Comparable(A) && Comparable(B) ==>
          forall i, j :: InGrid(|A|, |B|, i, j) ==> dist[i, j] >= 0.0)
  }

  lemma GridInvWeaken(A: seq<Point>, B: seq<Point>, dist: array2<real>, prevX: array2<int>, prevY: array2<int>,
                      row: int, row': int)
    requires GridInv(A, B, dist, prevX, prevY, row) && row <= row'
    ensures GridInv(A, B, dist, prevX, prevY, row')
  {
    forall i, j | InGrid(|A|, |B|, i, j) && (i != 0 || j != 0) && dist[i, j] < StrokeInfinity
      ensures Linked(A, B, dist, prevX, prevY, i, j, row')
    {
      assert Linked(A, B, dist, prevX, prevY, i, j, row);
    }
  }

  // ---------------------------------------------------------------------
  // step

  /** step: try the step from (x, y) to (x2, y2). A step whose time spans
      are too short or too unequal is skipped; otherwise k counts it and,
      if it improves on the distance recorded for (x2, y2), it becomes that
      cell's best predecessor. Nothing else in the tables changes. */
  method Step(a: Stroke, b: Stroke, ghost A: seq<Point>, ghost B: seq<Point>, dist: array2<real>, prevX: array2<int>, prevY: array2<int>,
              x: int, y: int, tx: real, ty: real, k: int, x2: int, y2: int, ghost done: set<(int, int)>)
    returns (k': int)
    requires a.Valid() && b.Valid() && A == a.Points() && B == b.Points()
    requires GridInv(A, B, dist, prevX, prevY, x + 1)
    requires 0 <= x < x2 < a.n && 0 <= y < y2 < b.n && InGrid(a.n, b.n, x2, y2)
    requires (x2, y2) in Window(A, B, x, y, x, y, 0)
    requires tx == a.p[x].t && ty == b.p[y].t
    requires dist[x, y] < StrokeInfinity
    requires Relaxed(A, B, dist, x, y, done)
    modifies dist, prevX, prevY
    ensures GridInv(A, B, dist, prevX, prevY, x + 1)
    ensures Relaxed(A, B, dist, x, y, done + {(x2, y2)})
    ensures dist[x2, y2] <= old(dist[x2, y2])
    ensures k' == k + Counted(A, B, x, y, x2, y2)
    ensures !Viable(A[x2].t - A[x].t, B[y2].t - B[y].t) ==>
      dist[x2, y2] == old(dist[x2, y2]) && prevX[x2, y2] == old(prevX[x2, y2]) && prevY[x2, y2] == old(prevY[x2, y2])
    ensures Viable(A[x2].t - A[x].t, B[y2].t - B[y].t) ==>
      var through := old(dist[x, y]) + EdgeCost(A, B, x, y, x2, y2);
      && (through < old(dist[x2, y2]) ==>
            dist[x2, y2] == through && prevX[x2, y2] == x && prevY[x2, y2] == y)
      && (through >= old(dist[x2, y2]) ==>
            dist[x2, y2] == old(dist[x2, y2]) && prevX[x2, y2] == old(prevX[x2, y2]) && prevY[x2, y2] == old(prevY[x2, y2]))
    ensures forall i, j :: 0 <= i < dist.Length0 && 0 <= j < dist.Length1 && (i != x2 || j != y2) ==>
      dist[i, j] == old(dist[i, j]) && prevX[i, j] == old(prevX[i, j]) && prevY[i, j] == old(prevY[i, j])
  {
    k' := k;
    var dtx := a.p[x2].t - tx;
    var dty := b.p[y2].t - ty;
    if dtx >= dty * 2.2 || dty >= dtx * 2.2 || dtx < Epsilon || dty < Epsilon {
      RelaxedAdd(A, B, dist, x, y, done, x2, y2);
      return;
    }
    k' := k + 1;

    var d := Walk(a, b, x, y, x2, y2, tx, ty, dtx, dty);

    var newDist := dist[x, y] + Weighted(dtx + dty, d);
    assert A[x2].t - A[x].t == dtx && B[y2].t - B[y].t == dty;
    assert newDist == dist[x, y] + EdgeCost(A, B, x, y, x2, y2);
    if newDist < dist[x2, y2] {
      Relax(A, B, dist, prevX, prevY, x, y, x2, y2, newDist);
    }
    RelaxedAdd(A, B, dist, x, y, done, x2, y2);
  }

  /** The improving branch of step: (x2, y2) gets the distance through
      (x, y) and (x, y) as its predecessor. */
  method Relax(ghost A: seq<Point>, ghost B: seq<Point>, dist: array2<real>, prevX: array2<int>, prevY: array2<int>,
               x: int, y: int, x2: int, y2: int, newDist: real)
    requires GridInv(A, B, dist, prevX, prevY, x + 1)
    requires 0 <= x < x2 < |A| && 0 <= y < y2 < |B| && InGrid(|A|, |B|, x2, y2)
    requires Viable(A[x2].t - A[x].t, B[y2].t - B[y].t) && (x2, y2) in Window(A, B, x, y, x, y, 0)
    requires dist[x, y] < StrokeInfinity
    requires newDist == dist[x, y] + EdgeCost(A, B, x, y, x2, y2) && newDist < dist[x2, y2]
    modifies dist, prevX, prevY
    ensures GridInv(A, B, dist, prevX, prevY, x + 1)
    ensures dist[x2, y2] == newDist && prevX[x2, y2] == x && prevY[x2, y2] == y
    ensures forall i, j :: 0 <= i < dist.Length0 && 0 <= j < dist.Length1 && (i != x2 || j != y2) ==>
      dist[i, j] == old(dist[i, j]) && prevX[i, j] == old(prevX[i, j]) && prevY[i, j] == old(prevY[i, j])
  {
    if Comparable(A) && Comparable(B) {
      EdgeCostBounds(A, B, x, y, x2, y2);
    }
    prevX[x2, y2] := x;
    prevY[x2, y2] := y;
    dist[x2, y2] := newDist;
    forall i, j | InGrid(|A|, |B|, i, j) && (i != 0 || j != 0) && dist[i, j] < StrokeInfinity
      ensures Linked(A, B, dist, prevX, prevY, i, j, x + 1)
    {
      if (i, j) != (x2, y2) {
        assert old(Linked(A, B, dist, prevX, prevY, i, j, x + 1));
        assert (old(prevX[i, j]), old(prevY[i, j])) != (x2, y2);
      }
    }
  }

  /** The walk loop of step: the integral of the squared angle difference
      over the merged time grid of a's span x..x2 and b's span y..y2. */
  method Walk(a: Stroke, b: Stroke, x: int, y: int, x2: int, y2: int, tx: real, ty: real, dtx: real, dty: real)
    returns (d: real)
    requires a.Valid() && b.Valid()
    requires 0 <= x < x2 < a.n && 0 <= y < y2 < b.n
    requires tx == a.p[x].t && ty == b.p[y].t
    requires dtx == a.p[x2].t - tx && dty == b.p[y2].t - ty && Viable(dtx, dty)
    ensures d == WalkFrom(a.Points(), b.Points(), x, y, x2, y2, x, y, 0.0)
  {
    ghost var A, B := a.Points(), b.Points();
    d := 0.0;
    var i, j := x, y;
    var nextTx := (a.p[i + 1].t - tx) / dtx;
    var nextTy := (b.p[j + 1].t - ty) / dty;
    var curT := 0.0;
    FractionAtEnd(A, x, x2);
    FractionAtEnd(B, y, y2);
    while true
      invariant x <= i < x2 && y <= j < y2
      invariant nextTx == Fraction(A, tx, dtx, i + 1) && nextTy == Fraction(B, ty, dty, j + 1)
      invariant d + WalkFrom(A, B, x, y, x2, y2, i, j, curT) == WalkFrom(A, B, x, y, x2, y2, x, y, 0.0)
      decreases (x2 - i) + (y2 - j)
    {
      var ad := Square(AngleDifference(a.p[i].alpha, b.p[j].alpha));
      var nextT := if nextTx < nextTy then nextTx else nextTy;
      var done := nextT >= 1.0 - Epsilon;
      if done {
        nextT := 1.0;
      }
      d := d + Weighted(nextT - curT, ad);
      if done {
        break;
      }
      curT := nextT;
      if nextTx < nextTy {
        i := i + 1;
        nextTx := (a.p[i + 1].t - tx) / dtx;
      } else {
        j := j + 1;
        nextTy := (b.p[j + 1].t - ty) / dty;
      }
    }
  }

  // ---------------------------------------------------------------------
  // Routes through the tables

  /** A route read backwards, from its last cell to (0, 0): each cell is
      reached from the next by a viable step that advances both strokes. */
  ghost predicate Route(A: seq<Point>, B: seq<Point>, r: seq<(int, int)>)
    decreases |r|
  {
    && |r| >= 1
    && 0 <= r[0].0 < |A| && 0 <= r[0].1 < |B|
    && if |r| == 1 then r[0] == (0, 0)
       else
         && 0 <= r[1].0 < r[0].0 && 0 <= r[1].1 < r[0].1
         && Viable(A[r[0].0].t - A[r[1].0].t, B[r[0].1].t - B[r[1].1].t)
         && Route(A, B, r[1..])
  }

  /** A route whose every step goes from a cell to one of the cells that
      cell's window tries: the routes the dynamic programme can find. */
  ghost predicate WindowRoute(A: seq<Point>, B: seq<Point>, r: seq<(int, int)>)
    decreases |r|
  {
    && Route(A, B, r)
    && (|r| > 1 ==>
          && r[1].0 < |A| - 1 && r[1].1 < |B| - 1
          && r[0] in Window(A, B, r[1].0, r[1].1, r[1].0, r[1].1, 0)
          && WindowRoute(A, B, r[1..]))
  }

  /** The distance a route accumulates: the cost of each of its steps. */
  ghost function RouteCost(A: seq<Point>, B: seq<Point>, r: seq<(int, int)>): real
    requires Route(A, B, r)
    decreases |r|
  {
    if |r| == 1 then 0.0
    else EdgeCost(A, B, r[1].0, r[1].1, r[0].0, r[0].1) + RouteCost(A, B, r[1..])
  }

  /** The route the predecessor tables record for a reached cell. */
  ghost function Trace(A: seq<Point>, B: seq<Point>, dist: array2<real>, prevX: array2<int>, prevY: array2<int>,
                       row: int, i: int, j: int): (r: seq<(int, int)>)
    requires GridInv(A, B, dist, prevX, prevY, row)
    requires InGrid(|A|, |B|, i, j) && dist[i, j] < StrokeInfinity
    reads dist, prevX, prevY
    ensures |r| >= 1 && r[0] == (i, j)
    ensures |r| <= i + 1 && |r| <= j + 1
    decreases i
  {
    if (i, j) == (0, 0) then [(0, 0)]
    else
      assert Linked(A, B, dist, prevX, prevY, i, j, row);
      [(i, j)] + Trace(A, B, dist, prevX, prevY, row, prevX[i, j], prevY[i, j])
  }

  /** The recorded route is a route through windows, and it costs exactly
      the distance recorded for its last cell. */
  lemma {:induction false} TraceRoute(A: seq<Point>, B: seq<Point>, dist: array2<real>, prevX: array2<int>,
                                      prevY: array2<int>, row: int, i: int, j: int)
    requires GridInv(A, B, dist, prevX, prevY, row)
    requires InGrid(|A|, |B|, i, j) && dist[i, j] < StrokeInfinity
    ensures WindowRoute(A, B, Trace(A, B, dist, prevX, prevY, row, i, j))
    ensures RouteCost(A, B, Trace(A, B, dist, prevX, prevY, row, i, j)) == dist[i, j]
    decreases i
  {
    if (i, j) != (0, 0) {
      TraceStep(A, B, dist, prevX, prevY, row, i, j);
      assert Linked(A, B, dist, prevX, prevY, i, j, row);
      var r := Trace(A, B, dist, prevX, prevY, row, i, j);
      TraceRoute(A, B, dist, prevX, prevY, row, prevX[i, j], prevY[i, j]);
      assert r[1..] == Trace(A, B, dist, prevX, prevY, row, prevX[i, j], prevY[i, j]);
    }
  }

  /** Following one predecessor link from a reached cell. */
  lemma TraceStep(A: seq<Point>, B: seq<Point>, dist: array2<real>, prevX: array2<int>, prevY: array2<int>,
                  row: int, i: int, j: int)
    requires GridInv(A, B, dist, prevX, prevY, row)
    requires InGrid(|A|, |B|, i, j) && dist[i, j] < StrokeInfinity && (i, j) != (0, 0)
    ensures 0 <= prevX[i, j] < i && 0 <= prevY[i, j] < j
    ensures InGrid(|A|, |B|, prevX[i, j], prevY[i, j]) && dist[prevX[i, j], prevY[i, j]] < StrokeInfinity
    ensures Trace(A, B, dist, prevX, prevY, row, i, j)
         == [(i, j)] + Trace(A, B, dist, prevX, prevY, row, prevX[i, j], prevY[i, j])
  {
    assert Linked(A, B, dist, prevX, prevY, i, j, row);
  }

  /** On comparable strokes a route costs between nothing and the time it
      spans on both strokes together. */
  lemma {:induction false} RouteCostBounds(A: seq<Point>, B: seq<Point>, r: seq<(int, int)>)
    requires Route(A, B, r) && Comparable(A) && Comparable(B)
    ensures 0.0 <= RouteCost(A, B, r) <= (A[r[0].0].t - A[0].t) + (B[r[0].1].t - B[0].t)
    decreases |r|
  {
    if |r| > 1 {
      RouteCostBounds(A, B, r[1..]);
      EdgeCostBounds(A, B, r[1].0, r[1].1, r[0].0, r[0].1);
    }
  }

  /** Where every squared angle difference in the window is at least c,
      the walk from curT adds at least c for each unit of what is left. */
  lemma {:induction false} WalkAtLeast(A: seq<Point>, B: seq<Point>, x: nat, y: nat, x2: nat, y2: nat,
                                       i: nat, j: nat, curT: real, walk: real, c: real)
    requires x < x2 < |A| && y < y2 < |B|
    requires Viable(A[x2].t - A[x].t, B[y2].t - B[y].t)
    requires x <= i < x2 && y <= j < y2
    requires Comparable(A) && Comparable(B)
    requires 0.0 <= curT <= 1.0
    requires curT <= Fraction(A, A[x].t, A[x2].t - A[x].t, i + 1)
    requires curT <= Fraction(B, B[y].t, B[y2].t - B[y].t, j + 1)
    requires walk == WalkFrom(A, B, x, y, x2, y2, i, j, curT)
    requires forall i', j' {:trigger Square(AngleDifference(A[i'].alpha, B[j'].alpha))} :: x <= i' < x2 && y <= j' < y2 ==> Square(AngleDifference(A[i'].alpha, B[j'].alpha)) >= c
    ensures walk >= c * (1.0 - curT)
    decreases (x2 - i) + (y2 - j)
  {
    var dtx, dty := A[x2].t - A[x].t, B[y2].t - B[y].t;
    var nextTx := Fraction(A, A[x].t, dtx, i + 1);
    var nextTy := Fraction(B, B[y].t, dty, j + 1);
    var ad := Square(AngleDifference(A[i].alpha, B[j].alpha));
    var nextT := Min(nextTx, nextTy);
    FractionAtEnd(A, x, x2);
    FractionAtEnd(B, y, y2);
    if nextT >= 1.0 - Epsilon {
      WeightedAtLeast(1.0 - curT, ad, c);
      assert walk == Weighted(1.0 - curT, ad);
    } else {
      var rest;
      if nextTx < nextTy {
        FractionMonotone(A, A[x].t, dtx, i + 1);
        rest := WalkFrom(A, B, x, y, x2, y2, i + 1, j, nextT);
        WalkAtLeast(A, B, x, y, x2, y2, i + 1, j, nextT, rest, c);
      } else {
        FractionMonotone(B, B[y].t, dty, j + 1);
        rest := WalkFrom(A, B, x, y, x2, y2, i, j + 1, nextT);
        WalkAtLeast(A, B, x, y, x2, y2, i, j + 1, nextT, rest, c);
      }
      assert walk == Weighted(nextT - curT, ad) + rest;
      WalkStepAtLeast(walk, ad, rest, c, curT, nextT);
    }
  }

  /** A step costs at least c times the time it spans on both strokes,
      where every squared angle difference in its window is at least c. */
  lemma EdgeAtLeast(A: seq<Point>, B: seq<Point>, x: nat, y: nat, x2: nat, y2: nat, c: real)
    requires x < x2 < |A| && y < y2 < |B|
    requires Viable(A[x2].t - A[x].t, B[y2].t - B[y].t)
    requires Comparable(A) && Comparable(B)
    requires forall i, j {:trigger Square(AngleDifference(A[i].alpha, B[j].alpha))} ::
               x <= i < x2 && y <= j < y2 ==> Square(AngleDifference(A[i].alpha, B[j].alpha)) >= c
    ensures EdgeCost(A, B, x, y, x2, y2) >= c * ((A[x2].t - A[x].t) + (B[y2].t - B[y].t))
  {
    var dtx, dty := A[x2].t - A[x].t, B[y2].t - B[y].t;
    FractionMonotone(A, A[x].t, dtx, x);
    FractionMonotone(B, B[y].t, dty, y);
    assert Fraction(A, A[x].t, dtx, x) == 0.0 && Fraction(B, B[y].t, dty, y) == 0.0;
    var walk := WalkFrom(A, B, x, y, x2, y2, x, y, 0.0);
    WalkAtLeast(A, B, x, y, x2, y2, x, y, 0.0, walk, c);
    WeightedAtLeast(dtx + dty, walk, c);
  }

  /** c times the time each step of a route spans on both strokes, added
      up step by step. */
  ghost function ScaledSpan(A: seq<Point>, B: seq<Point>, r: seq<(int, int)>, c: real): real
    requires Route(A, B, r)
    decreases |r|
  {
    if |r| == 1 then 0.0
    else c * ((A[r[0].0].t - A[r[1].0].t) + (B[r[0].1].t - B[r[1].1].t)) + ScaledSpan(A, B, r[1..], c)
  }

  /** The steps' spans add up to the span of the whole route. */
  lemma {:induction false} ScaledSpanTotal(A: seq<Point>, B: seq<Point>, r: seq<(int, int)>, c: real)
    requires Route(A, B, r)
    ensures ScaledSpan(A, B, r, c) == c * ((A[r[0].0].t - A[0].t) + (B[r[0].1].t - B[0].t))
    decreases |r|
  {
    if |r| > 1 {
      var p, q := r[1], r[0];
      ScaledSpanTotal(A, B, r[1..], c);
      Distribute(c, (A[q.0].t - A[p.0].t) + (B[q.1].t - B[p.1].t), (A[p.0].t - A[0].t) + (B[p.1].t - B[0].t),
                 (A[q.0].t - A[0].t) + (B[q.1].t - B[0].t));
    }
  }

  lemma Distribute(c: real, u: real, v: real, w: real)
    requires w == u + v
    ensures c * u + c * v == c * w
  {
  }

  /** Where every step's squared angle differences are at least c, the
      route costs at least its scaled span. */
  lemma {:induction false} RouteAtLeastSpan(A: seq<Point>, B: seq<Point>, r: seq<(int, int)>, c: real)
    requires Route(A, B, r) && Comparable(A) && Comparable(B)
    requires forall i, j {:trigger Square(AngleDifference(A[i].alpha, B[j].alpha))} ::
               0 <= i < |A| - 1 && 0 <= j < |B| - 1 ==> Square(AngleDifference(A[i].alpha, B[j].alpha)) >= c
    ensures RouteCost(A, B, r) >= ScaledSpan(A, B, r, c)
    decreases |r|
  {
    if |r| > 1 {
      RouteAtLeastSpan(A, B, r[1..], c);
      EdgeAtLeast(A, B, r[1].0, r[1].1, r[0].0, r[0].1, c);
    }
  }

  /** A route costs at least c times the time it spans on both strokes,
      where every squared angle difference between them is at least c. */
  lemma RouteAtLeast(A: seq<Point>, B: seq<Point>, r: seq<(int, int)>, c: real)
    requires Route(A, B, r) && Comparable(A) && Comparable(B)
    requires forall i, j {:trigger Square(AngleDifference(A[i].alpha, B[j].alpha))} ::
               0 <= i < |A| - 1 && 0 <= j < |B| - 1 ==> Square(AngleDifference(A[i].alpha, B[j].alpha)) >= c
    ensures RouteCost(A, B, r) >= c * ((A[r[0].0].t - A[0].t) + (B[r[0].1].t - B[0].t))
  {
    RouteAtLeastSpan(A, B, r, c);
    ScaledSpanTotal(A, B, r, c);
  }

  lemma WeightedAtLeast(w: real, ad: real, c: real)
    requires w >= 0.0 && ad >= c
    ensures Weighted(w, ad) >= c * w
  {
    MulMonotoneLe(c, ad, w);
    assert w * ad == ad * w;
  }

  /** One piece of the walk and the rest of it, each bounded below. */
  lemma WalkStepAtLeast(total: real, ad: real, rest: real, c: real, curT: real, nextT: real)
    requires total == Weighted(nextT - curT, ad) + rest && curT <= nextT
    requires ad >= c && rest >= c * (1.0 - nextT)
    ensures total >= c * (1.0 - curT)
  {
    WeightedAtLeast(nextT - curT, ad, c);
    SumAtLeast(Weighted(nextT - curT, ad), rest, c, nextT - curT, 1.0 - nextT, 1.0 - curT);
  }

  /** Adding two bounds of the form c times a length. */
  lemma SumAtLeast(p: real, q: real, c: real, u: real, v: real, w: real)
    requires p >= c * u && q >= c * v && w == u + v
    ensures p + q >= c * w
  {
    assert c * (u + v) == c * u + c * v;
  }

  /** Strokes that point the same way everywhere cost nothing along any
      route. */
  lemma {:induction false} RouteParallel(A: seq<Point>, B: seq<Point>, r: seq<(int, int)>)
    requires Route(A, B, r)
    requires forall i, j :: 0 <= i < |A| && 0 <= j < |B| ==> A[i].alpha == B[j].alpha
    ensures RouteCost(A, B, r) == 0.0
    decreases |r|
  {
    if |r| > 1 {
      RouteParallel(A, B, r[1..]);
      WalkParallel(A, B, r[1].0, r[1].1, r[0].0, r[0].1, r[1].0, r[1].1, 0.0);
    }
  }

  // ---------------------------------------------------------------------
  // stroke_compare

  /** Some route through windows from (0, 0) to (m, n) costs exactly
      `cost`. */
  ghost predicate Reached(A: seq<Point>, B: seq<Point>, cost: real)
  {
    exists r :: WindowRoute(A, B, r) && r[0] == (|A| - 1, |B| - 1) && RouteCost(A, B, r) == cost
  }

  /** No route through windows from (0, 0) to (m, n) costs less than
      `cost`. */
  ghost predicate Cheapest(A: seq<Point>, B: seq<Point>, cost: real)
  {
    forall r :: WindowRoute(A, B, r) && r[0] == (|A| - 1, |B| - 1) ==> cost <= RouteCost(A, B, r)
  }

  /** What stroke_compare promises about the cost of a against b: at most
      stroke_infinity; 0 for two one-point strokes and stroke_infinity when
      only one has a single point; never negative on comparable strokes;
      below stroke_infinity only as the cost of a route through windows from
      (0, 0) to (m, n), and on comparable strokes no more than any such
      route costs, so that it is the cheapest; and 0 for a stroke against
      itself when every segment spans at least epsilon. */
  ghost predicate Scored(A: seq<Point>, B: seq<Point>, cost: real)
  {
    && cost <= StrokeInfinity
    && (|A| == 1 && |B| == 1 ==> cost == 0.0)
    && ((|A| == 1) != (|B| == 1) ==> cost == StrokeInfinity)
    && (Comparable(A) && Comparable(B) ==> cost >= 0.0)
    && (cost < StrokeInfinity ==> Reached(A, B, cost))
    && (Comparable(A) && Comparable(B) ==> Cheapest(A, B, cost))
    && (A == B && Comparable(A) && Paced(A) ==> cost == 0.0)
  }

  /** stroke_compare: the distance of the cheapest route the dynamic
      programme finds from (0, 0) to the last pair of points (m, n), or
      stroke_infinity when it finds none. When both path arrays are given,
      the route's cells before (m, n) are written to them from the end
      backwards, or a single (0, 0) when there is no route, and the rest of
      the arrays is left alone; when either is null neither is touched. */
  method Compare(a: Stroke, b: Stroke, pathX: array?<int>, pathY: array?<int>)
    returns (cost: real, ghost route: seq<(int, int)>)
    requires a.Valid() && b.Valid() && a.n >= 1 && b.n >= 1
    requires pathX != null && pathY != null ==>
      && pathX != pathY && pathX.Length >= 1 && pathY.Length >= 1
      && (pathX.Length >= a.n - 1 || pathX.Length >= b.n - 1)
      && (pathY.Length >= a.n - 1 || pathY.Length >= b.n - 1)
    modifies pathX, pathY
    ensures Scored(a.Points(), b.Points(), cost)
    ensures cost < StrokeInfinity ==>
      && WindowRoute(a.Points(), b.Points(), route) && route[0] == (a.n - 1, b.n - 1)
      && RouteCost(a.Points(), b.Points(), route) == cost
    ensures pathX == null || pathY == null ==>
      && (pathX != null ==> pathX[..] == old(pathX[..]))
      && (pathY != null ==> pathY[..] == old(pathY[..]))
    ensures pathX != null && pathY != null && cost >= StrokeInfinity ==>
      && pathX[0] == 0 && pathY[0] == 0
      && pathX[1..] == old(pathX[1..]) && pathY[1..] == old(pathY[1..])
    ensures pathX != null && pathY != null && cost < StrokeInfinity ==>
      && |route| - 1 <= pathX.Length && |route| - 1 <= pathY.Length
      && (forall k :: 0 <= k < |route| - 1 ==> pathX[k] == route[k + 1].0 && pathY[k] == route[k + 1].1)
      && pathX[|route| - 1..] == old(pathX[|route| - 1..]) && pathY[|route| - 1..] == old(pathY[|route| - 1..])
  {
    ghost var A, B := a.Points(), b.Points();
    var M, N := a.n, b.n;
    var m, n := M - 1, N - 1;
    var dist, prevX, prevY;
    dist, prevX, prevY, route := Tables(a, b, A, B);
    cost := dist[m, n];
    Report(A, B, dist, prevX, prevY, route, cost, pathX, pathY);
    assert a.Points() == A && b.Points() == B;
  }

  /** The path arrays, when both are given: the recorded route when (m, n)
      was reached, a single (0, 0) otherwise. */
  method Report(ghost A: seq<Point>, ghost B: seq<Point>, dist: array2<real>, prevX: array2<int>, prevY: array2<int>,
                ghost route: seq<(int, int)>, cost: real, pathX: array?<int>, pathY: array?<int>)
    requires Shaped(A, B, dist, prevX, prevY) && cost == dist[|A| - 1, |B| - 1]
    requires cost < StrokeInfinity ==>
      && Chain(prevX, prevY, route) && route[0] == (|A| - 1, |B| - 1)
      && |route| <= |A| && |route| <= |B|
    requires pathX != null && pathY != null ==>
      && pathX != pathY && pathX.Length >= 1 && pathY.Length >= 1
      && (pathX.Length >= |A| - 1 || pathX.Length >= |B| - 1)
      && (pathY.Length >= |A| - 1 || pathY.Length >= |B| - 1)
    modifies pathX, pathY
    ensures pathX == null || pathY == null ==>
      && (pathX != null ==> pathX[..] == old(pathX[..]))
      && (pathY != null ==> pathY[..] == old(pathY[..]))
    ensures pathX != null && pathY != null && cost >= StrokeInfinity ==>
      && pathX[0] == 0 && pathY[0] == 0
      && pathX[1..] == old(pathX[1..]) && pathY[1..] == old(pathY[1..])
    ensures pathX != null && pathY != null && cost < StrokeInfinity ==>
      && |route| - 1 <= pathX.Length && |route| - 1 <= pathY.Length
      && (forall k :: 0 <= k < |route| - 1 ==> pathX[k] == route[k + 1].0 && pathY[k] == route[k + 1].1)
      && pathX[|route| - 1..] == old(pathX[|route| - 1..]) && pathY[|route| - 1..] == old(pathY[|route| - 1..])
  {
    if pathX == null || pathY == null {
      return;
    }
    if cost < StrokeInfinity {
      WritePath(prevX, prevY, route, pathX, pathY);
    } else {
      pathX[0] := 0;
      pathY[0] := 0;
    }
  }

  /** The tables stroke_compare fills, before the path is read off them. */
  method Tables(a: Stroke, b: Stroke, ghost A: seq<Point>, ghost B: seq<Point>)
    returns (dist: array2<real>, prevX: array2<int>, prevY: array2<int>, ghost route: seq<(int, int)>)
    requires a.Valid() && b.Valid() && a.n >= 1 && b.n >= 1
    requires A == a.Points() && B == b.Points()
    ensures fresh(dist) && fresh(prevX) && fresh(prevY)
    ensures Shaped(A, B, dist, prevX, prevY)
    ensures SettledBefore(A, B, dist, |A| - 1, 0)
    ensures Scored(A, B, dist[|A| - 1, |B| - 1])
    ensures dist[|A| - 1, |B| - 1] < StrokeInfinity ==>
      && WindowRoute(A, B, route) && route[0] == (|A| - 1, |B| - 1)
      && RouteCost(A, B, route) == dist[|A| - 1, |B| - 1]
      && Chain(prevX, prevY, route) && |route| <= |A| && |route| <= |B|
  {
    dist, prevX, prevY := NewTables(A, B, a.n, b.n);
    Fill(a, b, dist, prevX, prevY);
    assert a.Points() == A && b.Points() == B;
    var m, n := a.n - 1, b.n - 1;
    route := [];
    if dist[m, n] < StrokeInfinity {
      route := Trace(A, B, dist, prevX, prevY, m, m, n);
    }
    Outcome(A, B, dist, prevX, prevY, route);
  }

  /** What the filled tables say about the final cell (m, n). */
  lemma Outcome(A: seq<Point>, B: seq<Point>, dist: array2<real>, prevX: array2<int>, prevY: array2<int>,
                route: seq<(int, int)>)
    requires GridInv(A, B, dist, prevX, prevY, |A| - 1)
    requires |A| == 1 || |B| == 1 ==>
      dist[|A| - 1, |B| - 1] == if |A| == 1 && |B| == 1 then 0.0 else StrokeInfinity
    requires dist[|A| - 1, |B| - 1] < StrokeInfinity ==>
      InGrid(|A|, |B|, |A| - 1, |B| - 1) && route == Trace(A, B, dist, prevX, prevY, |A| - 1, |A| - 1, |B| - 1)
    requires SettledBefore(A, B, dist, |A| - 1, 0)
    ensures Shaped(A, B, dist, prevX, prevY)
    ensures Scored(A, B, dist[|A| - 1, |B| - 1])
    ensures dist[|A| - 1, |B| - 1] < StrokeInfinity ==>
      && WindowRoute(A, B, route) && route[0] == (|A| - 1, |B| - 1)
      && RouteCost(A, B, route) == dist[|A| - 1, |B| - 1]
      && Chain(prevX, prevY, route) && |route| <= |A| && |route| <= |B|
  {
    var m, n := |A| - 1, |B| - 1;
    assert InGrid(|A|, |B|, m, n);
    if dist[m, n] < StrokeInfinity {
      TraceRoute(A, B, dist, prevX, prevY, m, m, n);
      TraceChain(A, B, dist, prevX, prevY, m, m, n);
    }
    if A == B && Comparable(A) && Paced(A) {
      DiagonalZero(A, dist, prevX, prevY, m, m);
    }
    if Comparable(A) && Comparable(B) {
      CheapestFound(A, B, dist, prevX, prevY);
    }
  }

  /** On comparable strokes the filled tables hold at (m, n) the cheapest
      cost of a route through windows. */
  lemma CheapestFound(A: seq<Point>, B: seq<Point>, dist: array2<real>, prevX: array2<int>, prevY: array2<int>)
    requires GridInv(A, B, dist, prevX, prevY, |A| - 1) && SettledBefore(A, B, dist, |A| - 1, 0)
    requires Comparable(A) && Comparable(B)
    ensures Cheapest(A, B, dist[|A| - 1, |B| - 1])
  {
    forall r | WindowRoute(A, B, r) && r[0] == (|A| - 1, |B| - 1)
      ensures dist[|A| - 1, |B| - 1] <= RouteCost(A, B, r)
    {
      assert InGrid(|A|, |B|, |A| - 1, |B| - 1);
      if RouteCost(A, B, r) < StrokeInfinity {
        WindowRouteBound(A, B, dist, prevX, prevY, r);
      }
    }
  }

  /** On comparable strokes, once every reached cell has had its window
      tried, no cell's distance exceeds the cost of a route through windows
      to it: by induction along the route, each step was tried from a cell
      already no dearer than the route up to it. */
  lemma {:induction false} WindowRouteBound(A: seq<Point>, B: seq<Point>, dist: array2<real>, prevX: array2<int>,
                                            prevY: array2<int>, r: seq<(int, int)>)
    requires GridInv(A, B, dist, prevX, prevY, |A| - 1) && SettledBefore(A, B, dist, |A| - 1, 0)
    requires Comparable(A) && Comparable(B)
    requires WindowRoute(A, B, r) && RouteCost(A, B, r) < StrokeInfinity
    ensures dist[r[0].0, r[0].1] <= RouteCost(A, B, r)
    decreases |r|
  {
    if |r| > 1 {
      var p, c := r[1], r[0];
      EdgeCostBounds(A, B, p.0, p.1, c.0, c.1);
      WindowRouteBound(A, B, dist, prevX, prevY, r[1..]);
      assert Settled(A, B, dist, p.0, p.1);
    }
  }

  /** Every segment of the stroke spans at least epsilon of time. */
  predicate Paced(s: seq<Point>)
  {
    forall i :: 0 <= i < |s| - 1 ==> s[i + 1].t - s[i].t >= Epsilon
  }

  /** Comparing a stroke with itself, the window of a diagonal cell (x, x)
      tries the next diagonal cell: the first round moves max_x on (the
      strokes are level), the second moves max_y on and tries (x + 1, x + 1),
      or the first round already meets the last row and tries (m, m). */
  lemma DiagonalTried(A: seq<Point>, x: int)
    requires Paced(A) && 0 <= x < |A| - 1
    ensures (x + 1, x + 1) in Window(A, A, x, x, x, x, 0)
  {
    var m := |A| - 1;
    WindowX(A, A, x, x, x, x, 0);
    if x + 1 < m {
      assert A[x + 2].t - A[x + 1].t >= Epsilon;
      assert ColumnCells(x + 1, x + 1, x) == {} && ColumnViable(A, A, x, x, x + 1, x + 1, x) == 0;
      WindowY(A, A, x, x, x + 1, x, 0);
      assert (x + 1, x + 1) in RowCells(x + 1, x + 1, x + 1);
    }
  }

  /** Comparing a stroke with itself, every diagonal cell ends at distance
      0: each is reached from the one before by a step along equal
      directions, which costs nothing, and no distance is negative. */
  lemma {:induction false} DiagonalZero(A: seq<Point>, dist: array2<real>, prevX: array2<int>, prevY: array2<int>,
                                        row: int, x: int)
    requires GridInv(A, A, dist, prevX, prevY, row) && SettledBefore(A, A, dist, |A| - 1, 0)
    requires Comparable(A) && Paced(A) && 0 <= x < |A|
    ensures dist[x, x] == 0.0
    decreases x
  {
    assert InGrid(|A|, |A|, x, x);
    if x > 0 {
      DiagonalZero(A, dist, prevX, prevY, row, x - 1);
      assert Settled(A, A, dist, x - 1, x - 1);
      DiagonalTried(A, x - 1);
      assert A[x].t - A[x - 1].t >= Epsilon;
      WalkParallel(A, A, x - 1, x - 1, x, x, x - 1, x - 1, 0.0);
      assert EdgeCost(A, A, x - 1, x - 1, x, x) == 0.0;
    }
  }

  /** The two loops of stroke_compare over the cells (x, y) with x < m
      and y < n, in row order: each cell already reached is expanded. */
  method Fill(a: Stroke, b: Stroke, dist: array2<real>, prevX: array2<int>, prevY: array2<int>)
    requires a.Valid() && b.Valid()
    requires GridInv(a.Points(), b.Points(), dist, prevX, prevY, 0)
    modifies dist, prevX, prevY
    ensures GridInv(a.Points(), b.Points(), dist, prevX, prevY, a.n - 1)
    ensures SettledBefore(a.Points(), b.Points(), dist, a.n - 1, 0)
    ensures a.n == 1 || b.n == 1 ==> dist[a.n - 1, b.n - 1] == old(dist[a.n - 1, b.n - 1])
  {
    ghost var A, B := a.Points(), b.Points();
    var m, n := a.n - 1, b.n - 1;
    for x := 0 to m
      invariant GridInv(A, B, dist, prevX, prevY, x)
      invariant SettledBefore(A, B, dist, x, 0)
      invariant m == 0 || n == 0 ==> dist[m, n] == old(dist[m, n])
    {
      GridInvWeaken(A, B, dist, prevX, prevY, x, x + 1);
      for y := 0 to n
        invariant GridInv(A, B, dist, prevX, prevY, x + 1)
        invariant SettledBefore(A, B, dist, x, y)
        invariant m == 0 || n == 0 ==> dist[m, n] == old(dist[m, n])
      {
        Visit(a, b, A, B, dist, prevX, prevY, x, y);
      }
      SettledRow(A, B, dist, x);
    }
  }

  /** One cell of stroke_compare's inner loop: a cell not yet reached is
      skipped, a reached one is expanded. Either way it is settled, and the
      cells before it stay settled. */
  method Visit(a: Stroke, b: Stroke, ghost A: seq<Point>, ghost B: seq<Point>,
               dist: array2<real>, prevX: array2<int>, prevY: array2<int>, x: int, y: int)
    requires a.Valid() && b.Valid() && A == a.Points() && B == b.Points()
    requires GridInv(A, B, dist, prevX, prevY, x + 1)
    requires 0 <= x < a.n - 1 && 0 <= y < b.n - 1
    requires SettledBefore(A, B, dist, x, y)
    modifies dist, prevX, prevY
    ensures GridInv(A, B, dist, prevX, prevY, x + 1)
    ensures SettledBefore(A, B, dist, x, y + 1)
    ensures old(dist[x, y]) >= StrokeInfinity ==>
      forall i, j :: 0 <= i < dist.Length0 && 0 <= j < dist.Length1 ==> dist[i, j] == old(dist[i, j]) && prevX[i, j] == old(prevX[i, j]) && prevY[i, j] == old(prevY[i, j])
    ensures forall i, j :: 0 <= i < dist.Length0 && 0 <= j < dist.Length1 && (i, j) !in Window(A, B, x, y, x, y, 0) ==>
      dist[i, j] == old(dist[i, j]) && prevX[i, j] == old(prevX[i, j]) && prevY[i, j] == old(prevY[i, j])
  {
    if dist[x, y] >= StrokeInfinity {
      SettledNext(A, B, dist, x, y);
      return;
    }
    Expand(a, b, dist, prevX, prevY, x, y);
    forall i, j | 0 <= i < |A| - 1 && 0 <= j < |B| - 1 && (i < x || (i == x && j < y))
      ensures Settled(A, B, dist, i, j)
    {
      assert old(Settled(A, B, dist, i, j));
    }
    SettledNext(A, B, dist, x, y);
  }

  /** The tables before the first row is expanded: every cell the
      programme uses at stroke_infinity, except (0, 0) at zero. */
  method NewTables(ghost A: seq<Point>, ghost B: seq<Point>, M: int, N: int)
    returns (dist: array2<real>, prevX: array2<int>, prevY: array2<int>)
    requires |A| == M >= 1 && |B| == N >= 1
    ensures fresh(dist) && fresh(prevX) && fresh(prevY)
    ensures GridInv(A, B, dist, prevX, prevY, 0)
    ensures dist[M - 1, N - 1] == if M == 1 && N == 1 then 0.0 else StrokeInfinity
  {
    dist := new real[M, N];
    prevX := new int[M, N];
    prevY := new int[M, N];
    var m, n := M - 1, N - 1;
    for i := 0 to m
      invariant forall i', j' :: 0 <= i' < i && 0 <= j' < n ==> dist[i', j'] == StrokeInfinity
    {
      for j := 0 to n
        invariant forall i', j' :: (0 <= i' < i && 0 <= j' < n) || (i' == i && 0 <= j' < j) ==>
          dist[i', j'] == StrokeInfinity
      {
        dist[i, j] := StrokeInfinity;
      }
    }
    dist[m, n] := StrokeInfinity;
    dist[0, 0] := 0.0;
    assert forall i, j :: InGrid(M, N, i, j) && (i != 0 || j != 0) ==> dist[i, j] == StrokeInfinity;
  }

  // ---------------------------------------------------------------------
  // The cells the window of a reached cell tries

  /** The cells (lo, y2) .. (hi, y2) on a new row of the window. */
  ghost function RowCells(lo: int, hi: int, y2: int): set<(int, int)>
    decreases hi - lo
  {
    if hi < lo then {} else RowCells(lo, hi - 1, y2) + {(hi, y2)}
  }

  /** The cells (x2, lo) .. (x2, hi) on a new column of the window. */
  ghost function ColumnCells(x2: int, lo: int, hi: int): set<(int, int)>
    decreases hi - lo
  {
    if hi < lo then {} else ColumnCells(x2, lo, hi - 1) + {(x2, hi)}
  }

  /** The row cells are exactly the cells (i, y2) with lo <= i <= hi. */
  lemma {:induction false} RowCellsSpan(lo: int, hi: int, y2: int)
    ensures forall c :: c in RowCells(lo, hi, y2) <==> c.1 == y2 && lo <= c.0 <= hi
    decreases hi - lo
  {
    if lo <= hi {
      RowCellsSpan(lo, hi - 1, y2);
    }
  }

  /** The column cells are exactly the cells (x2, j) with lo <= j <= hi. */
  lemma {:induction false} ColumnCellsSpan(x2: int, lo: int, hi: int)
    ensures forall c :: c in ColumnCells(x2, lo, hi) <==> c.0 == x2 && lo <= c.1 <= hi
    decreases hi - lo
  {
    if lo <= hi {
      ColumnCellsSpan(x2, lo, hi - 1);
    }
  }

  /** What the step from (x, y) to (x2, y2) adds to k: one when it is viable. */
  ghost function Counted(A: seq<Point>, B: seq<Point>, x: int, y: int, x2: int, y2: int): nat
    requires 0 <= x < |A| && 0 <= x2 < |A| && 0 <= y < |B| && 0 <= y2 < |B|
  {
    if Viable(A[x2].t - A[x].t, B[y2].t - B[y].t) then 1 else 0
  }

  /** How many of the steps from (x, y) to (lo, y2) .. (hi, y2) are viable,
      which is what they add to k. */
  ghost function RowViable(A: seq<Point>, B: seq<Point>, x: int, y: int, lo: int, hi: int, y2: int): nat
    requires 0 <= x < lo && hi < |A| && 0 <= y < |B| && 0 <= y2 < |B|
    decreases hi - lo
  {
    if hi < lo then 0
    else RowViable(A, B, x, y, lo, hi - 1, y2) + Counted(A, B, x, y, hi, y2)
  }

  /** How many of the steps from (x, y) to (x2, lo) .. (x2, hi) are viable. */
  ghost function ColumnViable(A: seq<Point>, B: seq<Point>, x: int, y: int, x2: int, lo: int, hi: int): nat
    requires 0 <= x < |A| && 0 <= x2 < |A| && 0 <= y < lo && hi < |B|
    decreases hi - lo
  {
    if hi < lo then 0
    else ColumnViable(A, B, x, y, x2, lo, hi - 1) + Counted(A, B, x, y, x2, hi)
  }

  /** The cells the k < 4 loop of stroke_compare still tries from (x, y)
      once the window reaches (maxX, maxY) with k viable steps counted: the
      window grows along the stroke that lags in time, the cells on its new
      row or column are tried, and meeting the last row or column tries
      (m, n) and ends the loop. */
  ghost function Window(A: seq<Point>, B: seq<Point>, x: int, y: int, maxX: int, maxY: int, k: int): set<(int, int)>
    requires 0 <= x <= maxX < |A| - 1 && 0 <= y <= maxY < |B| - 1
    decreases (|A| - maxX) + (|B| - maxY)
  {
    var m, n := |A| - 1, |B| - 1;
    if k >= 4 then {}
    else if A[maxX + 1].t - A[x].t > B[maxY + 1].t - B[y].t then
      if maxY + 1 == n then {(m, n)}
      else RowCells(x + 1, maxX, maxY + 1)
           + Window(A, B, x, y, maxX, maxY + 1, k + RowViable(A, B, x, y, x + 1, maxX, maxY + 1))
    else
      if maxX + 1 == m then {(m, n)}
      else ColumnCells(maxX + 1, y + 1, maxY)
           + Window(A, B, x, y, maxX + 1, maxY, k + ColumnViable(A, B, x, y, maxX + 1, y + 1, maxY))
  }

  /** Every viable step from (x, y) to a cell of S has been tried: the cell's
      distance is at most the distance through (x, y). */
  ghost predicate Relaxed(A: seq<Point>, B: seq<Point>, dist: array2<real>, x: int, y: int, S: set<(int, int)>)
    requires dist.Length0 == |A| && dist.Length1 == |B| && 0 <= x < |A| && 0 <= y < |B|
    reads dist
  {
    forall c {:trigger c in S} :: c in S && x < c.0 < |A| && y < c.1 < |B| && Viable(A[c.0].t - A[x].t, B[c.1].t - B[y].t) ==>
      dist[c.0, c.1] <= dist[x, y] + EdgeCost(A, B, x, y, c.0, c.1)
  }

  lemma RelaxedAdd(A: seq<Point>, B: seq<Point>, dist: array2<real>, x: int, y: int, S: set<(int, int)>,
                   x2: int, y2: int)
    requires dist.Length0 == |A| && dist.Length1 == |B| && 0 <= x < x2 < |A| && 0 <= y < y2 < |B|
    requires Relaxed(A, B, dist, x, y, S)
    requires Viable(A[x2].t - A[x].t, B[y2].t - B[y].t) ==>
      dist[x2, y2] <= dist[x, y] + EdgeCost(A, B, x, y, x2, y2)
    ensures Relaxed(A, B, dist, x, y, S + {(x2, y2)})
  {
  }

  /** Cell (x, y), when reached, has had its whole window tried. */
  ghost predicate Settled(A: seq<Point>, B: seq<Point>, dist: array2<real>, x: int, y: int)
    requires dist.Length0 == |A| && dist.Length1 == |B| && 0 <= x < |A| - 1 && 0 <= y < |B| - 1
    reads dist
  {
    dist[x, y] < StrokeInfinity ==> Relaxed(A, B, dist, x, y, Window(A, B, x, y, x, y, 0))
  }

  /** Every cell before (x, y) in the row order of stroke_compare's loops is
      settled. */
  ghost predicate SettledBefore(A: seq<Point>, B: seq<Point>, dist: array2<real>, x: int, y: int)
    requires dist.Length0 == |A| && dist.Length1 == |B|
    reads dist
  {
    forall i, j :: 0 <= i < |A| - 1 && 0 <= j < |B| - 1 && (i < x || (i == x && j < y)) ==>
      Settled(A, B, dist, i, j)
  }

  lemma SettledNext(A: seq<Point>, B: seq<Point>, dist: array2<real>, x: int, y: int)
    requires dist.Length0 == |A| && dist.Length1 == |B| && 0 <= x < |A| - 1 && 0 <= y < |B| - 1
    requires SettledBefore(A, B, dist, x, y) && Settled(A, B, dist, x, y)
    ensures SettledBefore(A, B, dist, x, y + 1)
  {
  }

  lemma SettledRow(A: seq<Point>, B: seq<Point>, dist: array2<real>, x: int)
    requires dist.Length0 == |A| && dist.Length1 == |B|
    requires SettledBefore(A, B, dist, x, |B| - 1)
    ensures SettledBefore(A, B, dist, x + 1, 0)
  {
  }

  /** The body of stroke_compare's inner loop for a reached cell (x, y):
      widen the window (max_x, max_y) one point at a time towards whichever
      stroke lags in time, trying the steps on its new edge, until four
      steps were viable or the window meets the last row or column, where
      the final step goes straight to (m, n). Every cell of the window is
      tried, distances only go down, and only cells beyond (x, y) in both
      strokes change. */
  method Expand(a: Stroke, b: Stroke, dist: array2<real>, prevX: array2<int>, prevY: array2<int>, x: int, y: int)
    requires a.Valid() && b.Valid()
    requires GridInv(a.Points(), b.Points(), dist, prevX, prevY, x + 1)
    requires 0 <= x < a.n - 1 && 0 <= y < b.n - 1 && dist[x, y] < StrokeInfinity
    modifies dist, prevX, prevY
    ensures GridInv(a.Points(), b.Points(), dist, prevX, prevY, x + 1)
    ensures Relaxed(a.Points(), b.Points(), dist, x, y, Window(a.Points(), b.Points(), x, y, x, y, 0))
    ensures forall i, j :: 0 <= i < dist.Length0 && 0 <= j < dist.Length1 ==>
      dist[i, j] <= old(dist[i, j]) && (i <= x || j <= y ==> dist[i, j] == old(dist[i, j]))
    ensures forall i, j :: 0 <= i < dist.Length0 && 0 <= j < dist.Length1 && (i, j) !in Window(a.Points(), b.Points(), x, y, x, y, 0) ==>
      dist[i, j] == old(dist[i, j]) && prevX[i, j] == old(prevX[i, j]) && prevY[i, j] == old(prevY[i, j])
  {
    ghost var A, B := a.Points(), b.Points();
    var tx, ty := a.p[x].t, b.p[y].t;
    var maxX, maxY, k := x, y, 0;
    ghost var done: set<(int, int)> := {};
    while k < 4
      invariant x <= maxX < a.n - 1 && y <= maxY < b.n - 1
      invariant GridInv(A, B, dist, prevX, prevY, x + 1)
      invariant Relaxed(A, B, dist, x, y, done)
      invariant Window(A, B, x, y, x, y, 0) == done + Window(A, B, x, y, maxX, maxY, k)
      invariant forall i, j :: 0 <= i < dist.Length0 && 0 <= j < dist.Length1 ==>
        dist[i, j] <= old(dist[i, j]) && (i <= x || j <= y ==> dist[i, j] == old(dist[i, j]))
      invariant forall i, j :: 0 <= i < dist.Length0 && 0 <= j < dist.Length1 && (i, j) !in done ==>
        dist[i, j] == old(dist[i, j]) && prevX[i, j] == old(prevX[i, j]) && prevY[i, j] == old(prevY[i, j])
      decreases (a.n - maxX) + (b.n - maxY)
    {
      var stop;
      ghost var done' := done;
      maxX, maxY, k, stop, done' := Round(a, b, A, B, dist, prevX, prevY, x, y, tx, ty, maxX, maxY, k, done);
      done := done';
      if stop {
        break;
      }
    }
  }

  /** One round of the k < 4 loop: the window grows towards the stroke that
      lags, and the cells it gains are tried. Afterwards the cells tried so
      far and the rest of the window still make up the whole window, unless
      the round stopped at (m, n), when the tried cells are the whole window.
      Only tried cells change. */
  method Round(a: Stroke, b: Stroke, ghost A: seq<Point>, ghost B: seq<Point>, dist: array2<real>, prevX: array2<int>, prevY: array2<int>,
               x: int, y: int, tx: real, ty: real, maxX: int, maxY: int, k: int, ghost done: set<(int, int)>)
    returns (maxX': int, maxY': int, k': int, stop: bool, ghost done': set<(int, int)>)
    requires a.Valid() && b.Valid() && A == a.Points() && B == b.Points()
    requires GridInv(A, B, dist, prevX, prevY, x + 1)
    requires 0 <= x <= maxX < a.n - 1 && 0 <= y <= maxY < b.n - 1 && k < 4
    requires tx == a.p[x].t && ty == b.p[y].t && dist[x, y] < StrokeInfinity
    requires Relaxed(A, B, dist, x, y, done)
    requires Window(A, B, x, y, x, y, 0) == done + Window(A, B, x, y, maxX, maxY, k)
    modifies dist, prevX, prevY
    ensures GridInv(A, B, dist, prevX, prevY, x + 1)
    ensures Relaxed(A, B, dist, x, y, done')
    ensures (a.n - maxX') + (b.n - maxY') < (a.n - maxX) + (b.n - maxY)
    ensures stop ==> Window(A, B, x, y, x, y, 0) == done'
    ensures !stop ==>
      && x <= maxX' < a.n - 1 && y <= maxY' < b.n - 1
      && Window(A, B, x, y, x, y, 0) == done' + Window(A, B, x, y, maxX', maxY', k')
    ensures forall i, j :: 0 <= i < dist.Length0 && 0 <= j < dist.Length1 ==>
      dist[i, j] <= old(dist[i, j]) && (i <= x || j <= y ==> dist[i, j] == old(dist[i, j]))
    ensures forall i, j :: 0 <= i < dist.Length0 && 0 <= j < dist.Length1 && (i, j) !in done' ==>
      (i, j) !in done && dist[i, j] == old(dist[i, j]) && prevX[i, j] == old(prevX[i, j]) && prevY[i, j] == old(prevY[i, j])
  {
    ghost var tried;
    if a.p[maxX + 1].t - tx > b.p[maxY + 1].t - ty {
      maxX' := maxX;
      AheadY(A, B, x, y, maxX, maxY, k, done);
      maxY', k', stop, tried := WidenY(a, b, A, B, dist, prevX, prevY, x, y, tx, ty, maxX, maxY, k, done);
      RoundY(A, B, x, y, maxX, maxY, k, maxY', k', stop, tried, done);
    } else {
      maxY' := maxY;
      AheadX(A, B, x, y, maxX, maxY, k, done);
      maxX', k', stop, tried := WidenX(a, b, A, B, dist, prevX, prevY, x, y, tx, ty, maxX, maxY, k, done);
      RoundX(A, B, x, y, maxX, maxY, k, maxX', k', stop, tried, done);
    }
    done' := done + tried;
  }

  lemma UnionShift<T>(s: set<T>, t: set<T>, u: set<T>)
    ensures s + (t + u) == (s + t) + u && s + {} == s
  {
  }

  /** Before a round in which b lags, the cells it is about to try lie in
      the window: (m, n) on the last column, the new row otherwise. */
  lemma AheadY(A: seq<Point>, B: seq<Point>, x: int, y: int, maxX: int, maxY: int, k: int, done: set<(int, int)>)
    requires 0 <= x <= maxX < |A| - 1 && 0 <= y <= maxY < |B| - 1 && k < 4
    requires A[maxX + 1].t - A[x].t > B[maxY + 1].t - B[y].t
    requires Window(A, B, x, y, x, y, 0) == done + Window(A, B, x, y, maxX, maxY, k)
    ensures maxY + 1 == |B| - 1 ==> (|A| - 1, |B| - 1) in Window(A, B, x, y, x, y, 0)
    ensures maxY + 1 < |B| - 1 ==> forall i, j :: x < i <= maxX && j == maxY + 1 ==> (i, j) in Window(A, B, x, y, x, y, 0)
  {
    WindowY(A, B, x, y, maxX, maxY, k);
    RowCellsSpan(x + 1, maxX, maxY + 1);
  }

  /** The same before a round in which a lags or neither does. */
  lemma AheadX(A: seq<Point>, B: seq<Point>, x: int, y: int, maxX: int, maxY: int, k: int, done: set<(int, int)>)
    requires 0 <= x <= maxX < |A| - 1 && 0 <= y <= maxY < |B| - 1 && k < 4
    requires !(A[maxX + 1].t - A[x].t > B[maxY + 1].t - B[y].t)
    requires Window(A, B, x, y, x, y, 0) == done + Window(A, B, x, y, maxX, maxY, k)
    ensures maxX + 1 == |A| - 1 ==> (|A| - 1, |B| - 1) in Window(A, B, x, y, x, y, 0)
    ensures maxX + 1 < |A| - 1 ==> forall i, j :: i == maxX + 1 && y < j <= maxY ==> (i, j) in Window(A, B, x, y, x, y, 0)
  {
    WindowX(A, B, x, y, maxX, maxY, k);
    ColumnCellsSpan(maxX + 1, y + 1, maxY);
  }

  /** The cells tried so far, after a round in which b lagged, together with
      the rest of the window make up the whole window. */
  lemma RoundY(A: seq<Point>, B: seq<Point>, x: int, y: int, maxX: int, maxY: int, k: int,
               maxY': int, k': int, stop: bool, tried: set<(int, int)>, done: set<(int, int)>)
    requires 0 <= x <= maxX < |A| - 1 && 0 <= y <= maxY < |B| - 1 && k < 4
    requires A[maxX + 1].t - A[x].t > B[maxY + 1].t - B[y].t
    requires Window(A, B, x, y, x, y, 0) == done + Window(A, B, x, y, maxX, maxY, k)
    requires maxY' == maxY + 1
    requires stop ==> maxY' == |B| - 1 && tried == {(|A| - 1, |B| - 1)}
    requires !stop ==>
      && maxY' < |B| - 1 && tried == RowCells(x + 1, maxX, maxY')
      && k' == k + RowViable(A, B, x, y, x + 1, maxX, maxY')
    ensures stop ==> Window(A, B, x, y, x, y, 0) == done + tried
    ensures !stop ==> Window(A, B, x, y, x, y, 0) == (done + tried) + Window(A, B, x, y, maxX, maxY', k')
  {
    WindowY(A, B, x, y, maxX, maxY, k);
    if !stop {
      UnionShift(done, tried, Window(A, B, x, y, maxX, maxY', k'));
    }
  }

  /** The same after a round in which a lagged or neither did. */
  lemma RoundX(A: seq<Point>, B: seq<Point>, x: int, y: int, maxX: int, maxY: int, k: int,
               maxX': int, k': int, stop: bool, tried: set<(int, int)>, done: set<(int, int)>)
    requires 0 <= x <= maxX < |A| - 1 && 0 <= y <= maxY < |B| - 1 && k < 4
    requires !(A[maxX + 1].t - A[x].t > B[maxY + 1].t - B[y].t)
    requires Window(A, B, x, y, x, y, 0) == done + Window(A, B, x, y, maxX, maxY, k)
    requires maxX' == maxX + 1
    requires stop ==> maxX' == |A| - 1 && tried == {(|A| - 1, |B| - 1)}
    requires !stop ==>
      && maxX' < |A| - 1 && tried == ColumnCells(maxX', y + 1, maxY)
      && k' == k + ColumnViable(A, B, x, y, maxX', y + 1, maxY)
    ensures stop ==> Window(A, B, x, y, x, y, 0) == done + tried
    ensures !stop ==> Window(A, B, x, y, x, y, 0) == (done + tried) + Window(A, B, x, y, maxX', maxY, k')
  {
    WindowX(A, B, x, y, maxX, maxY, k);
    if !stop {
      UnionShift(done, tried, Window(A, B, x, y, maxX', maxY, k'));
    }
  }

  /** One round of the window in which b lags. */
  lemma WindowY(A: seq<Point>, B: seq<Point>, x: int, y: int, maxX: int, maxY: int, k: int)
    requires 0 <= x <= maxX < |A| - 1 && 0 <= y <= maxY < |B| - 1 && k < 4
    requires A[maxX + 1].t - A[x].t > B[maxY + 1].t - B[y].t
    ensures maxY + 1 == |B| - 1 ==> Window(A, B, x, y, maxX, maxY, k) == {(|A| - 1, |B| - 1)}
    ensures maxY + 1 < |B| - 1 ==>
      Window(A, B, x, y, maxX, maxY, k)
      == RowCells(x + 1, maxX, maxY + 1) + Window(A, B, x, y, maxX, maxY + 1, k + RowViable(A, B, x, y, x + 1, maxX, maxY + 1))
  {
  }

  /** One round of the window in which a lags or neither does. */
  lemma WindowX(A: seq<Point>, B: seq<Point>, x: int, y: int, maxX: int, maxY: int, k: int)
    requires 0 <= x <= maxX < |A| - 1 && 0 <= y <= maxY < |B| - 1 && k < 4
    requires !(A[maxX + 1].t - A[x].t > B[maxY + 1].t - B[y].t)
    ensures maxX + 1 == |A| - 1 ==> Window(A, B, x, y, maxX, maxY, k) == {(|A| - 1, |B| - 1)}
    ensures maxX + 1 < |A| - 1 ==>
      Window(A, B, x, y, maxX, maxY, k)
      == ColumnCells(maxX + 1, y + 1, maxY) + Window(A, B, x, y, maxX + 1, maxY, k + ColumnViable(A, B, x, y, maxX + 1, y + 1, maxY))
  {
  }

  /** A round of the k < 4 loop in which b lags: max_y moves on. On the last
      column the final step to (m, n) is tried and the loop stops; otherwise
      the new row of the window is tried. */
  method WidenY(a: Stroke, b: Stroke, ghost A: seq<Point>, ghost B: seq<Point>, dist: array2<real>, prevX: array2<int>, prevY: array2<int>,
                x: int, y: int, tx: real, ty: real, maxX: int, maxY: int, k: int, ghost done: set<(int, int)>)
    returns (maxY': int, k': int, stop: bool, ghost tried: set<(int, int)>)
    requires a.Valid() && b.Valid() && A == a.Points() && B == b.Points()
    requires GridInv(A, B, dist, prevX, prevY, x + 1)
    requires 0 <= x <= maxX < a.n - 1 && 0 <= y <= maxY < b.n - 1 && k < 4
    requires tx == a.p[x].t && ty == b.p[y].t && dist[x, y] < StrokeInfinity
    requires a.p[maxX + 1].t - tx > b.p[maxY + 1].t - ty
    requires maxY + 1 == b.n - 1 ==> (a.n - 1, b.n - 1) in Window(A, B, x, y, x, y, 0)
    requires maxY + 1 < b.n - 1 ==> forall i, j :: x < i <= maxX && j == maxY + 1 ==> (i, j) in Window(A, B, x, y, x, y, 0)
    requires Relaxed(A, B, dist, x, y, done)
    modifies dist, prevX, prevY
    ensures GridInv(A, B, dist, prevX, prevY, x + 1)
    ensures Relaxed(A, B, dist, x, y, done + tried)
    ensures maxY' == maxY + 1
    ensures stop ==> maxY' == b.n - 1 && tried == {(a.n - 1, b.n - 1)}
    ensures !stop ==>
      && maxY' < b.n - 1 && tried == RowCells(x + 1, maxX, maxY')
      && k' == k + RowViable(A, B, x, y, x + 1, maxX, maxY')
    ensures forall i, j :: 0 <= i < dist.Length0 && 0 <= j < dist.Length1 && (i, j) !in tried ==>
      dist[i, j] == old(dist[i, j]) && prevX[i, j] == old(prevX[i, j]) && prevY[i, j] == old(prevY[i, j])
    ensures forall i, j :: 0 <= i < dist.Length0 && 0 <= j < dist.Length1 ==>
      dist[i, j] <= old(dist[i, j]) && (i <= x || j <= y ==> dist[i, j] == old(dist[i, j]))
  {
    var m, n := a.n - 1, b.n - 1;
    maxY' := maxY + 1;
    if maxY' == n {
      k' := Step(a, b, A, B, dist, prevX, prevY, x, y, tx, ty, k, m, n, done);
      stop, tried := true, {(m, n)};
    } else {
      RowCellsSpan(x + 1, maxX, maxY');
      k' := StepAcross(a, b, A, B, dist, prevX, prevY, x, y, tx, ty, k, maxX, maxY', done);
      stop, tried := false, RowCells(x + 1, maxX, maxY');
    }
  }

  /** A round of the k < 4 loop in which a lags (or neither does): max_x
      moves on. On the last row the final step to (m, n) is tried and the
      loop stops; otherwise the new column of the window is tried. */
  method WidenX(a: Stroke, b: Stroke, ghost A: seq<Point>, ghost B: seq<Point>, dist: array2<real>, prevX: array2<int>, prevY: array2<int>,
                x: int, y: int, tx: real, ty: real, maxX: int, maxY: int, k: int, ghost done: set<(int, int)>)
    returns (maxX': int, k': int, stop: bool, ghost tried: set<(int, int)>)
    requires a.Valid() && b.Valid() && A == a.Points() && B == b.Points()
    requires GridInv(A, B, dist, prevX, prevY, x + 1)
    requires 0 <= x <= maxX < a.n - 1 && 0 <= y <= maxY < b.n - 1 && k < 4
    requires tx == a.p[x].t && ty == b.p[y].t && dist[x, y] < StrokeInfinity
    requires !(a.p[maxX + 1].t - tx > b.p[maxY + 1].t - ty)
    requires maxX + 1 == a.n - 1 ==> (a.n - 1, b.n - 1) in Window(A, B, x, y, x, y, 0)
    requires maxX + 1 < a.n - 1 ==> forall i, j :: i == maxX + 1 && y < j <= maxY ==> (i, j) in Window(A, B, x, y, x, y, 0)
    requires Relaxed(A, B, dist, x, y, done)
    modifies dist, prevX, prevY
    ensures GridInv(A, B, dist, prevX, prevY, x + 1)
    ensures Relaxed(A, B, dist, x, y, done + tried)
    ensures maxX' == maxX + 1
    ensures stop ==> maxX' == a.n - 1 && tried == {(a.n - 1, b.n - 1)}
    ensures !stop ==>
      && maxX' < a.n - 1 && tried == ColumnCells(maxX', y + 1, maxY)
      && k' == k + ColumnViable(A, B, x, y, maxX', y + 1, maxY)
    ensures forall i, j :: 0 <= i < dist.Length0 && 0 <= j < dist.Length1 && (i, j) !in tried ==>
      dist[i, j] == old(dist[i, j]) && prevX[i, j] == old(prevX[i, j]) && prevY[i, j] == old(prevY[i, j])
    ensures forall i, j :: 0 <= i < dist.Length0 && 0 <= j < dist.Length1 ==>
      dist[i, j] <= old(dist[i, j]) && (i <= x || j <= y ==> dist[i, j] == old(dist[i, j]))
  {
    var m, n := a.n - 1, b.n - 1;
    maxX' := maxX + 1;
    if maxX' == m {
      k' := Step(a, b, A, B, dist, prevX, prevY, x, y, tx, ty, k, m, n, done);
      stop, tried := true, {(m, n)};
    } else {
      ColumnCellsSpan(maxX', y + 1, maxY);
      k' := StepDown(a, b, A, B, dist, prevX, prevY, x, y, tx, ty, k, maxX', maxY, done);
      stop, tried := false, ColumnCells(maxX', y + 1, maxY);
    }
  }

  /** Expand's loop over a new row of the window: the steps from (x, y)
      to (x + 1, y2) .. (x2, y2), each counted in k when viable. */
  method StepAcross(a: Stroke, b: Stroke, ghost A: seq<Point>, ghost B: seq<Point>, dist: array2<real>, prevX: array2<int>, prevY: array2<int>,
                    x: int, y: int, tx: real, ty: real, k: int, x2: int, y2: int, ghost done: set<(int, int)>)
    returns (k': int)
    requires a.Valid() && b.Valid() && A == a.Points() && B == b.Points()
    requires GridInv(A, B, dist, prevX, prevY, x + 1)
    requires 0 <= x <= x2 < a.n - 1 && 0 <= y < y2 < b.n - 1
    requires tx == a.p[x].t && ty == b.p[y].t && dist[x, y] < StrokeInfinity
    requires Relaxed(A, B, dist, x, y, done)
    requires forall i :: x < i <= x2 ==> (i, y2) in Window(A, B, x, y, x, y, 0)
    modifies dist, prevX, prevY
    ensures GridInv(A, B, dist, prevX, prevY, x + 1)
    ensures Relaxed(A, B, dist, x, y, done + RowCells(x + 1, x2, y2))
    ensures k' == k + RowViable(A, B, x, y, x + 1, x2, y2)
    ensures forall i, j :: 0 <= i < dist.Length0 && 0 <= j < dist.Length1 && (j != y2 || i <= x || x2 < i) ==>
      dist[i, j] == old(dist[i, j]) && prevX[i, j] == old(prevX[i, j]) && prevY[i, j] == old(prevY[i, j])
    ensures forall i, j :: 0 <= i < dist.Length0 && 0 <= j < dist.Length1 ==>
      dist[i, j] <= old(dist[i, j])
  {
    k' := k;
    ghost var seen := done;
    for hi := x to x2
      invariant seen == done + RowCells(x + 1, hi, y2)
      invariant GridInv(A, B, dist, prevX, prevY, x + 1)
      invariant Relaxed(A, B, dist, x, y, seen)
      invariant k' == k + RowViable(A, B, x, y, x + 1, hi, y2)
      invariant forall i, j :: 0 <= i < dist.Length0 && 0 <= j < dist.Length1 && (j != y2 || i <= x || hi < i) ==>
        dist[i, j] == old(dist[i, j]) && prevX[i, j] == old(prevX[i, j]) && prevY[i, j] == old(prevY[i, j])
      invariant forall i, j :: 0 <= i < dist.Length0 && 0 <= j < dist.Length1 ==>
        dist[i, j] <= old(dist[i, j])
    {
      assert RowCells(x + 1, hi + 1, y2) == RowCells(x + 1, hi, y2) + {(hi + 1, y2)};
      assert RowViable(A, B, x, y, x + 1, hi + 1, y2) == RowViable(A, B, x, y, x + 1, hi, y2) + Counted(A, B, x, y, hi + 1, y2);
      k' := Step(a, b, A, B, dist, prevX, prevY, x, y, tx, ty, k', hi + 1, y2, seen);
      seen := seen + {(hi + 1, y2)};
    }
  }

  /** Expand's loop over a new column of the window: the steps from (x, y)
      to (x2, y + 1) .. (x2, y2), each counted in k when viable. */
  method StepDown(a: Stroke, b: Stroke, ghost A: seq<Point>, ghost B: seq<Point>, dist: array2<real>, prevX: array2<int>, prevY: array2<int>,
                  x: int, y: int, tx: real, ty: real, k: int, x2: int, y2: int, ghost done: set<(int, int)>)
    returns (k': int)
    requires a.Valid() && b.Valid() && A == a.Points() && B == b.Points()
    requires GridInv(A, B, dist, prevX, prevY, x + 1)
    requires 0 <= x < x2 < a.n - 1 && 0 <= y <= y2 < b.n - 1
    requires tx == a.p[x].t && ty == b.p[y].t && dist[x, y] < StrokeInfinity
    requires Relaxed(A, B, dist, x, y, done)
    requires forall j :: y < j <= y2 ==> (x2, j) in Window(A, B, x, y, x, y, 0)
    modifies dist, prevX, prevY
    ensures GridInv(A, B, dist, prevX, prevY, x + 1)
    ensures Relaxed(A, B, dist, x, y, done + ColumnCells(x2, y + 1, y2))
    ensures k' == k + ColumnViable(A, B, x, y, x2, y + 1, y2)
    ensures forall i, j :: 0 <= i < dist.Length0 && 0 <= j < dist.Length1 && (i != x2 || j <= y || y2 < j) ==>
      dist[i, j] == old(dist[i, j]) && prevX[i, j] == old(prevX[i, j]) && prevY[i, j] == old(prevY[i, j])
    ensures forall i, j :: 0 <= i < dist.Length0 && 0 <= j < dist.Length1 ==>
      dist[i, j] <= old(dist[i, j])
  {
    k' := k;
    ghost var seen := done;
    for hi := y to y2
      invariant seen == done + ColumnCells(x2, y + 1, hi)
      invariant GridInv(A, B, dist, prevX, prevY, x + 1)
      invariant Relaxed(A, B, dist, x, y, seen)
      invariant k' == k + ColumnViable(A, B, x, y, x2, y + 1, hi)
      invariant forall i, j :: 0 <= i < dist.Length0 && 0 <= j < dist.Length1 && (i != x2 || j <= y || hi < j) ==>
        dist[i, j] == old(dist[i, j]) && prevX[i, j] == old(prevX[i, j]) && prevY[i, j] == old(prevY[i, j])
      invariant forall i, j :: 0 <= i < dist.Length0 && 0 <= j < dist.Length1 ==>
        dist[i, j] <= old(dist[i, j])
    {
      assert ColumnCells(x2, y + 1, hi + 1) == ColumnCells(x2, y + 1, hi) + {(x2, hi + 1)};
      assert ColumnViable(A, B, x, y, x2, y + 1, hi + 1) == ColumnViable(A, B, x, y, x2, y + 1, hi) + Counted(A, B, x, y, x2, hi + 1);
      k' := Step(a, b, A, B, dist, prevX, prevY, x, y, tx, ty, k', x2, hi + 1, seen);
      seen := seen + {(x2, hi + 1)};
    }
  }

  /** The path loop of stroke_compare: follow prev_x and prev_y back from
      (m, n), writing each predecessor, until (0, 0) is written. */
  method WritePath(prevX: array2<int>, prevY: array2<int>, ghost route: seq<(int, int)>,
                   pathX: array<int>, pathY: array<int>)
    requires Chain(prevX, prevY, route) && route[0] == (prevX.Length0 - 1, prevX.Length1 - 1)
    requires pathX != pathY && |route| - 1 <= pathX.Length && |route| - 1 <= pathY.Length
    modifies pathX, pathY
    ensures forall k :: 0 <= k < |route| - 1 ==> pathX[k] == route[k + 1].0 && pathY[k] == route[k + 1].1
    ensures pathX[|route| - 1..] == old(pathX[|route| - 1..]) && pathY[|route| - 1..] == old(pathY[|route| - 1..])
  {
    var x, y, k := prevX.Length0 - 1, prevX.Length1 - 1, 0;
    while x != 0 || y != 0
      invariant 0 <= k < |route| && route[k] == (x, y)
      invariant forall k' :: 0 <= k' < k ==> pathX[k'] == route[k' + 1].0
      invariant forall k' :: 0 <= k' < k ==> pathY[k'] == route[k' + 1].1
      invariant pathX[k..] == old(pathX[k..]) && pathY[k..] == old(pathY[k..])
      decreases |route| - k
    {
      var oldX := x;
      x := prevX[x, y];
      y := prevY[oldX, y];
      pathX[k] := x;
      pathY[k] := y;
      k := k + 1;
    }
  }

  /** The cells of a route recorded in the predecessor tables: each one
      but the last links to the next, and the last is (0, 0). */
  ghost predicate Chain(prevX: array2<int>, prevY: array2<int>, r: seq<(int, int)>)
    reads prevX, prevY
  {
    && |r| >= 1 && r[|r| - 1] == (0, 0)
    && (forall k :: 0 <= k < |r| ==>
          0 <= r[k].0 < prevX.Length0 && 0 <= r[k].1 < prevX.Length1
          && r[k].0 < prevY.Length0 && r[k].1 < prevY.Length1)
    && (forall k :: 0 <= k < |r| - 1 ==>
          r[k] != (0, 0) && r[k + 1] == (prevX[r[k].0, r[k].1], prevY[r[k].0, r[k].1]))
  }

  /** The route Trace reads off the tables is such a chain. */
  lemma {:induction false} TraceChain(A: seq<Point>, B: seq<Point>, dist: array2<real>, prevX: array2<int>,
                                      prevY: array2<int>, row: int, i: int, j: int)
    requires GridInv(A, B, dist, prevX, prevY, row)
    requires InGrid(|A|, |B|, i, j) && dist[i, j] < StrokeInfinity
    ensures Chain(prevX, prevY, Trace(A, B, dist, prevX, prevY, row, i, j))
    decreases i
  {
    if (i, j) != (0, 0) {
      TraceStep(A, B, dist, prevX, prevY, row, i, j);
      var t := Trace(A, B, dist, prevX, prevY, row, prevX[i, j], prevY[i, j]);
      TraceChain(A, B, dist, prevX, prevY, row, prevX[i, j], prevY[i, j]);
      ConsChain(prevX, prevY, i, j, t);
    }
  }

  lemma ConsChain(prevX: array2<int>, prevY: array2<int>, i: int, j: int, t: seq<(int, int)>)
    requires Chain(prevX, prevY, t) && (i, j) != (0, 0)
    requires 0 <= i < prevX.Length0 && 0 <= j < prevX.Length1 && i < prevY.Length0 && j < prevY.Length1
    requires t[0] == (prevX[i, j], prevY[i, j])
    ensures Chain(prevX, prevY, [(i, j)] + t)
  {
    var r := [(i, j)] + t;
    forall k | 0 < k < |r|
      ensures r[k] == t[k - 1]
    {
    }
  }

  // ---------------------------------------------------------------------
  // Straight lines as the normaliser leaves them: three points half a unit
  // apart at times 0, 1/2 and 1, both segments in the same direction
  // (atan2 over pi, so a half-turn is 1).

  /** A straight three-point stroke whose segments point in direction
      `alpha`. */
  ghost predicate Straight(s: seq<Point>, alpha: real)
  {
    && |s| == 3
    && s[0].t == 0.0 && s[1].t == 0.5 && s[2].t == 1.0
    && s[0].alpha == alpha && s[1].alpha == alpha
    && -1.0 <= alpha <= 1.0
  }

  /** Every route between two straight strokes to their last points costs
      at least twice the squared difference of their directions, since
      both strokes span a time of 1. */
  lemma StraightRoutesCost(A: seq<Point>, B: seq<Point>, alpha: real, beta: real, r: seq<(int, int)>)
    requires Straight(A, alpha) && Straight(B, beta)
    requires Route(A, B, r) && r[0] == (|A| - 1, |B| - 1)
    ensures RouteCost(A, B, r) >= 2.0 * Square(AngleDifference(alpha, beta))
  {
    StraightComparable(A, alpha);
    StraightComparable(B, beta);
    StraightDifferences(A, B, alpha, beta);
    var c := Square(AngleDifference(alpha, beta));
    RouteAtLeast(A, B, r, c);
    assert (A[r[0].0].t - A[0].t) + (B[r[0].1].t - B[0].t) == 2.0;
  }

  lemma StraightComparable(s: seq<Point>, alpha: real)
    requires Straight(s, alpha)
    ensures Comparable(s)
  {
    assert forall i :: 0 <= i < 2 ==> s[i].t <= s[i + 1].t;
  }

  lemma StraightDifferences(A: seq<Point>, B: seq<Point>, alpha: real, beta: real)
    requires Straight(A, alpha) && Straight(B, beta)
    ensures forall i, j {:trigger Square(AngleDifference(A[i].alpha, B[j].alpha))} ::
      0 <= i < |A| - 1 && 0 <= j < |B| - 1 ==> Square(AngleDifference(A[i].alpha, B[j].alpha)) >= Square(AngleDifference(alpha, beta))
  {
    forall i, j | 0 <= i < |A| - 1 && 0 <= j < |B| - 1
      ensures Square(AngleDifference(A[i].alpha, B[j].alpha)) >= Square(AngleDifference(alpha, beta))
    {
      assert A[i].alpha == alpha && B[j].alpha == beta;
    }
  }

  /** Two straight strokes whose directions differ by more than the square
      root of half of stroke_infinity do not match. */
  lemma StraightStrokesApart(A: seq<Point>, B: seq<Point>, alpha: real, beta: real, cost: real)
    requires Straight(A, alpha) && Straight(B, beta)
    requires 2.0 * Square(AngleDifference(alpha, beta)) > StrokeInfinity
    requires Scored(A, B, cost)
    ensures cost == StrokeInfinity
  {
    if cost < StrokeInfinity {
      var r :| WindowRoute(A, B, r) && r[0] == (|A| - 1, |B| - 1) && RouteCost(A, B, r) == cost;
      StraightRoutesCost(A, B, alpha, beta, r);
      assert false;
    }
  }

  /** A vertical line drawn top to bottom does not match the same line
      drawn bottom to top: the squared difference is 1, so every route
      costs at least 2. */
  lemma OppositeStrokesDoNotMatch(A: seq<Point>, B: seq<Point>, cost: real)
    requires Straight(A, 0.5) && Straight(B, -0.5) && Scored(A, B, cost)
    ensures cost == StrokeInfinity
  {
    StraightStrokesApart(A, B, 0.5, -0.5, cost);
  }

  /** Nor does it match a horizontal line drawn left to right: the squared
      difference is 1/4, so every route costs at least 1/2. */
  lemma OrthogonalStrokesDoNotMatch(A: seq<Point>, B: seq<Point>, cost: real)
    requires Straight(A, 0.5) && Straight(B, 0.0) && Scored(A, B, cost)
    ensures cost == StrokeInfinity
  {
    StraightStrokesApart(A, B, 0.5, 0.0, cost);
  }

  /** A straight line matches itself exactly. */
  lemma SameStrokeMatches(A: seq<Point>, alpha: real, cost: real)
    requires Straight(A, alpha) && Scored(A, A, cost)
    ensures cost == 0.0
  {
    assert forall i :: 0 <= i < 2 ==> A[i].t <= A[i + 1].t && A[i + 1].t - A[i].t == 0.5;
  }
}
