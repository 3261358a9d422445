/** The memory growth of a run, crates/calliope-cli/src/canary/checks.rs, over the reals. */
module RssWindows {
  import opened Prelude

  const MEMORY_WINDOW_SECS: nat := 24 * 3_600
  const SECS_PER_HOUR := 3_600.0

  /** One sample: unix seconds and resident KiB. */
  datatype Point = Point(ts: nat, kb: nat)

  // ----- the line through the points -----

  function Total(points: seq<Point>, f: Point -> real): real {
    if points == [] then 0.0 else Total(points[..|points| - 1], f) + f(points[|points| - 1])
  }

  /** Hours since the first point. */
  function Hours(points: seq<Point>): Point -> real
    requires points != []
  {
    (p: Point) => (p.ts - points[0].ts) as real / SECS_PER_HOUR
  }

  function Kb(): Point -> real {
    (p: Point) => p.kb as real
  }

  function One(): Point -> real {
    (p: Point) => 1.0
  }

  function Times(f: Point -> real, g: Point -> real): Point -> real {
    (p: Point) => f(p) * g(p)
  }

  function Combined(a: real, f: Point -> real, b: real, g: Point -> real): Point -> real {
    (p: Point) => a * f(p) + b * g(p)
  }

  /** The mean of the points, in hours and in KiB. */
  function MeanHours(points: seq<Point>): real
    requires points != []
  {
    Total(points, Hours(points)) / |points| as real
  }

  function MeanKb(points: seq<Point>): real
    requires points != []
  {
    Total(points, Kb()) / |points| as real
  }

  /** How far a point is from the mean, in hours and in KiB. */
  function Dx(points: seq<Point>): Point -> real
    requires points != []
  {
    (p: Point) => Hours(points)(p) - MeanHours(points)
  }

  function Dy(points: seq<Point>): Point -> real
    requires points != []
  {
    (p: Point) => Kb()(p) - MeanKb(points)
  }

  function Covariance(points: seq<Point>): real
    requires points != []
  {
    Total(points, Times(Dx(points), Dy(points)))
  }

  function Variance(points: seq<Point>): real
    requires points != []
  {
    Total(points, Times(Dx(points), Dx(points)))
  }

  /** The slope of the line through the points, if they are not all of one time. */
  function KibPerHour(points: seq<Point>): Option<real> {
    if points == [] then None
    else if Variance(points) > 0.0 then Some(Covariance(points) / Variance(points)) else None
  }

  /** The distance of a point from the line kb = mean + lift + slope * (hours - mean hours). */
  function Residual(points: seq<Point>, lift: real, slope: real): Point -> real
    requires points != []
  {
    (p: Point) => Dy(points)(p) - lift - slope * Dx(points)(p)
  }

  /** The sum of squared residuals of a line. */
  function SquaredResiduals(points: seq<Point>, lift: real, slope: real): real
    requires points != []
  {
    Total(points, Times(Residual(points, lift, slope), Residual(points, lift, slope)))
  }

  lemma {:induction false} TotalIsLinear(points: seq<Point>, h: Point -> real, a: real, f: Point -> real, b: real,
                                         g: Point -> real)
    requires forall i :: 0 <= i < |points| ==> h(points[i]) == a * f(points[i]) + b * g(points[i])
    ensures Total(points, h) == a * Total(points, f) + b * Total(points, g)
  {
    if points != [] {
      var front, last := points[..|points| - 1], points[|points| - 1];
      TotalIsLinear(front, h, a, f, b, g);
      Distributes(a, Total(front, f), f(last));
      Distributes(b, Total(front, g), g(last));
    }
  }

  lemma Distributes(a: real, b: real, c: real)
    ensures a * (b + c) == a * b + a * c
  {
  }

  lemma {:induction false} TotalOfOnes(points: seq<Point>)
    ensures Total(points, One()) == |points| as real
  {
    if points != [] {
      TotalOfOnes(points[..|points| - 1]);
    }
  }

  /** About the mean the deviations cancel. */
  lemma {:induction false} DeviationsCancel(points: seq<Point>)
    requires points != []
    ensures Total(points, Dx(points)) == 0.0 && Total(points, Dy(points)) == 0.0
  {
    DeviationsFrom(points, Hours(points), MeanHours(points), Dx(points));
    DeviationsFrom(points, Kb(), MeanKb(points), Dy(points));
  }

  lemma {:induction false} DeviationsFrom(points: seq<Point>, f: Point -> real, mean: real, deviation: Point -> real)
    requires points != [] && mean == Total(points, f) / |points| as real
    requires forall p :: deviation(p) == f(p) - mean
    ensures Total(points, deviation) == 0.0
  {
    TotalOfOnes(points);
    TotalIsLinear(points, deviation, 1.0, f, -mean, One());
    QuotientTimes(Total(points, f), |points| as real);
  }

  lemma QuotientTimes(a: real, n: real)
    requires n != 0.0
    ensures (a / n) * n == a && -(a / n) * n == -a
  {
  }

  lemma SquareExpands(dx: real, dy: real, lift: real, s: real, t: real)
    ensures (dy - lift - s * dx) * (dy - lift - s * dx)
            == 1.0 * ((dy - 0.0 - t * dx) * (dy - 0.0 - t * dx))
               + 1.0 * ((lift * lift) * 1.0 + 1.0 * (1.0 * ((-2.0 * lift) * dy + (2.0 * lift * s) * dx)
                                                   + 1.0 * ((-2.0 * (s - t)) * (dx * dy) + (s * s - t * t) * (dx * dx))))
  {
    var p, q, r := dy, s * dx, t * dx;
    assert (p - lift - q) * (p - lift - q) == p * p + lift * lift + q * q - 2.0 * lift * p - 2.0 * p * q + 2.0 * lift * q;
    assert (p - r) * (p - r) == p * p - 2.0 * p * r + r * r;
    assert q * q == (s * s) * (dx * dx) && r * r == (t * t) * (dx * dx);
    assert p * q == s * (dx * dy) && p * r == t * (dx * dy);
    assert lift * q == lift * s * dx;
  }

  /** The squared residuals of any line against those of the line through the mean with slope t. */
  lemma ResidualsExpand(points: seq<Point>, lift: real, s: real, t: real)
    requires points != []
    ensures SquaredResiduals(points, lift, s)
            == SquaredResiduals(points, 0.0, t) + (lift * lift) * |points| as real
               + ((-2.0 * (s - t)) * Covariance(points) + (s * s - t * t) * Variance(points))
  {
    var dx, dy := Dx(points), Dy(points);
    var dxdy, dxdx := Times(dx, dy), Times(dx, dx);
    var best := Times(Residual(points, 0.0, t), Residual(points, 0.0, t));
    var any := Times(Residual(points, lift, s), Residual(points, lift, s));
    var extra := Extra(points, lift, s, t);
    forall i | 0 <= i < |points|
      ensures any(points[i]) == 1.0 * best(points[i]) + 1.0 * extra(points[i])
    {
      PointExpands(points, points[i], lift, s, t);
    }
    TotalIsLinear(points, any, 1.0, best, 1.0, extra);
    TotalOfExtra(points, lift, s, t);
  }

  /** What a line adds to a point's squared residual, term by term. */
  function Extra(points: seq<Point>, lift: real, s: real, t: real): Point -> real
    requires points != []
  {
    var dx, dy := Dx(points), Dy(points);
    var first := Combined(-2.0 * lift, dy, 2.0 * lift * s, dx);
    var second := Combined(-2.0 * (s - t), Times(dx, dy), s * s - t * t, Times(dx, dx));
    Combined(lift * lift, One(), 1.0, Combined(1.0, first, 1.0, second))
  }

  lemma PointExpands(points: seq<Point>, p: Point, lift: real, s: real, t: real)
    requires points != []
    ensures Times(Residual(points, lift, s), Residual(points, lift, s))(p)
            == 1.0 * Times(Residual(points, 0.0, t), Residual(points, 0.0, t))(p) + 1.0 * Extra(points, lift, s, t)(p)
  {
    SquareExpands(Dx(points)(p), Dy(points)(p), lift, s, t);
  }

  lemma {:induction false} TotalOfCombined(points: seq<Point>, a: real, f: Point -> real, b: real, g: Point -> real)
    ensures Total(points, Combined(a, f, b, g)) == a * Total(points, f) + b * Total(points, g)
  {
    TotalIsLinear(points, Combined(a, f, b, g), a, f, b, g);
  }

  lemma {:induction false} TotalOfExtra(points: seq<Point>, lift: real, s: real, t: real)
    requires points != []
    ensures Total(points, Extra(points, lift, s, t))
            == (lift * lift) * |points| as real + ((-2.0 * (s - t)) * Covariance(points) + (s * s - t * t) * Variance(points))
  {
    var dx, dy := Dx(points), Dy(points);
    var first := Combined(-2.0 * lift, dy, 2.0 * lift * s, dx);
    var second := Combined(-2.0 * (s - t), Times(dx, dy), s * s - t * t, Times(dx, dx));
    TotalOfCombined(points, -2.0 * lift, dy, 2.0 * lift * s, dx);
    TotalOfCombined(points, -2.0 * (s - t), Times(dx, dy), s * s - t * t, Times(dx, dx));
    TotalOfCombined(points, 1.0, first, 1.0, second);
    TotalOfCombined(points, lift * lift, One(), 1.0, Combined(1.0, first, 1.0, second));
    TotalOfOnes(points);
    DeviationsCancel(points);
  }

  /** The reported slope is that of the line with the smallest sum of squared residuals: no line, however high and
      however steep, is closer to the points. */
  lemma SlopeIsLeastSquares(points: seq<Point>, lift: real, slope: real)
    requires KibPerHour(points).Some?
    ensures SquaredResiduals(points, 0.0, KibPerHour(points).value) <= SquaredResiduals(points, lift, slope)
  {
    var best := KibPerHour(points).value;
    ResidualsExpand(points, lift, slope, best);
    QuotientTimes(Covariance(points), Variance(points));
    CompletesTheSquare(slope, best, Variance(points));
    SquareIsNonNegative(slope - best);
    SquareIsNonNegative(lift);
    ProductIsNonNegative((slope - best) * (slope - best), Variance(points));
    ProductIsNonNegative(lift * lift, |points| as real);
  }

  lemma CompletesTheSquare(s: real, t: real, v: real)
    ensures (-2.0 * (s - t)) * (t * v) + (s * s - t * t) * v == ((s - t) * (s - t)) * v
  {
    assert (s - t) * (s - t) == s * s - 2.0 * s * t + t * t;
    assert (-2.0 * (s - t)) * (t * v) == (-2.0 * s * t + 2.0 * t * t) * v;
  }

  lemma SquareIsNonNegative(a: real)
    ensures a * a >= 0.0 && (a != 0.0 ==> a * a > 0.0)
  {
  }

  lemma ProductIsNonNegative(a: real, b: real)
    requires a >= 0.0 && b >= 0.0
    ensures a * b >= 0.0
  {
  }

  lemma {:induction false} TotalOfNonNegatives(points: seq<Point>, f: Point -> real)
    requires forall i :: 0 <= i < |points| ==> f(points[i]) >= 0.0
    ensures Total(points, f) >= 0.0
    ensures Total(points, f) > 0.0 <==> exists i :: 0 <= i < |points| && f(points[i]) > 0.0
  {
    if points != [] {
      var front := points[..|points| - 1];
      TotalOfNonNegatives(front, f);
      if i :| 0 <= i < |front| && f(front[i]) > 0.0 {
        assert f(points[i]) > 0.0;
      }
    }
  }

  /** Of points that lie on a line it is the line's growth: so many KiB for each 3600 seconds. */
  lemma ExactLine(points: seq<Point>, growth: real, i: nat, j: nat)
    requires i < |points| && j < |points| && points[i].ts != points[j].ts
    requires forall k :: 0 <= k < |points| ==> IsOnLine(points[0], points[k], growth)
    ensures KibPerHour(points) == Some(growth)
  {
    SlopeNeedsTwoTimes(points);
    CovarianceOnLine(points, growth);
    SlopeOfScaled(Covariance(points), growth, Variance(points));
  }

  lemma CovarianceOnLine(points: seq<Point>, growth: real)
    requires points != [] && forall k :: 0 <= k < |points| ==> IsOnLine(points[0], points[k], growth)
    ensures Covariance(points) == growth * Variance(points)
  {
    MeanIsOnLine(points, growth);
    forall k | 0 <= k < |points|
      ensures Times(Dx(points), Dy(points))(points[k])
              == growth * Times(Dx(points), Dx(points))(points[k]) + 0.0 * One()(points[k])
    {
      PointOnLine(points, points[k], growth);
    }
    TotalIsLinear(points, Times(Dx(points), Dy(points)), growth, Times(Dx(points), Dx(points)), 0.0, One());
  }

  lemma MeanIsOnLine(points: seq<Point>, growth: real)
    requires points != [] && forall k :: 0 <= k < |points| ==> IsOnLine(points[0], points[k], growth)
    ensures MeanKb(points) == points[0].kb as real + growth * MeanHours(points)
  {
    var first := points[0].kb as real;
    forall k | 0 <= k < |points|
      ensures Kb()(points[k]) == first * One()(points[k]) + growth * Hours(points)(points[k])
    {
      KbOnLine(points, points[k], growth);
    }
    TotalOfOnes(points);
    TotalIsLinear(points, Kb(), first, One(), growth, Hours(points));
    MeanOnLine(first, growth, Total(points, Hours(points)), |points| as real);
  }

  lemma KbOnLine(points: seq<Point>, p: Point, growth: real)
    requires points != [] && IsOnLine(points[0], p, growth)
    ensures Kb()(p) == points[0].kb as real * One()(p) + growth * Hours(points)(p)
  {
  }

  lemma PointOnLine(points: seq<Point>, p: Point, growth: real)
    requires points != [] && IsOnLine(points[0], p, growth)
    requires MeanKb(points) == points[0].kb as real + growth * MeanHours(points)
    ensures Times(Dx(points), Dy(points))(p) == growth * Times(Dx(points), Dx(points))(p) + 0.0 * One()(p)
  {
    var h, mean := Hours(points)(p), MeanHours(points);
    OnLineFromMean(points[0].kb as real, growth, h, mean);
    assert Dy(points)(p) == growth * (h - mean);
    ProductScales(h - mean, growth);
  }

  predicate IsOnLine(first: Point, p: Point, growth: real) {
    p.kb as real == first.kb as real + growth * ((p.ts - first.ts) as real / 3_600.0)
  }

  lemma MeanOnLine(first: real, growth: real, hours: real, n: real)
    requires n != 0.0
    ensures (first * n + growth * hours) / n == first + growth * (hours / n)
  {
    QuotientTimes(hours, n);
    assert growth * hours == growth * (hours / n * n) == growth * (hours / n) * n;
    assert first * n + growth * hours == (first + growth * (hours / n)) * n;
  }

  lemma OnLineFromMean(first: real, growth: real, h: real, mean: real)
    ensures first + growth * h - (first + growth * mean) == growth * (h - mean)
  {
  }

  lemma ProductScales(d: real, growth: real)
    ensures d * (growth * d) == growth * (d * d)
  {
  }

  lemma SlopeOfScaled(c: real, growth: real, v: real)
    requires v != 0.0 && c == growth * v
    ensures c / v == growth
  {
  }

  /** A slope is reported if and only if two points have different times. */
  lemma SlopeNeedsTwoTimes(points: seq<Point>)
    ensures KibPerHour(points).Some? <==>
              exists i, j :: 0 <= i < |points| && 0 <= j < |points| && points[i].ts != points[j].ts
  {
    if points != [] {
      var dxdx := Times(Dx(points), Dx(points));
      forall i | 0 <= i < |points|
        ensures dxdx(points[i]) >= 0.0
      {
        SquareIsNonNegative(Dx(points)(points[i]));
      }
      TotalOfNonNegatives(points, dxdx);
      if i, j :| 0 <= i < |points| && 0 <= j < |points| && points[i].ts != points[j].ts {
        DifferentTimes(points, points[i], points[j]);
        assert dxdx(points[i]) > 0.0 || dxdx(points[j]) > 0.0;
      } else {
        forall i | 0 <= i < |points|
          ensures dxdx(points[i]) == 0.0
        {
          AllAtOnce(points, points[i]);
        }
      }
    }
  }

  lemma DifferentTimes(points: seq<Point>, p: Point, q: Point)
    requires points != [] && p.ts != q.ts
    ensures Times(Dx(points), Dx(points))(p) > 0.0 || Times(Dx(points), Dx(points))(q) > 0.0
  {
    var x, y := Hours(points)(p), Hours(points)(q);
    assert x == (p.ts - points[0].ts) as real / SECS_PER_HOUR && y == (q.ts - points[0].ts) as real / SECS_PER_HOUR;
    assert Dx(points)(p) == x - MeanHours(points) && Dx(points)(q) == y - MeanHours(points);
    SquareIsNonNegative(Dx(points)(p));
    SquareIsNonNegative(Dx(points)(q));
  }

  lemma AllAtOnce(points: seq<Point>, p: Point)
    requires p in points && forall i, j :: 0 <= i < |points| && 0 <= j < |points| ==> points[i].ts == points[j].ts
    ensures Times(Dx(points), Dx(points))(p) == 0.0
  {
    forall i | 0 <= i < |points|
      ensures Hours(points)(points[i]) == 0.0
    {
      assert points[i].ts == points[0].ts;
    }
    TotalIsLinear(points, Hours(points), 0.0, One(), 0.0, One());
    assert MeanHours(points) == 0.0 && Dx(points)(p) == 0.0;
  }

  // ----- the window -----

  /** What is left once the points at the front from before `windowStart` are popped. */
  function Recent(points: seq<Point>, windowStart: nat): seq<Point> {
    if points == [] || points[0].ts >= windowStart then points else Recent(points[1..], windowStart)
  }

  function InWindow(points: seq<Point>, windowStart: nat): seq<Point> {
    if points == [] then []
    else InWindow(points[..|points| - 1], windowStart)
         + (if points[|points| - 1].ts >= windowStart then [points[|points| - 1]] else [])
  }

  predicate InOrder(points: seq<Point>) {
    forall i, j :: 0 <= i < j < |points| ==> points[i].ts <= points[j].ts
  }

  function WindowStart(ts: nat): nat {
    if ts >= MEMORY_WINDOW_SECS then ts - MEMORY_WINDOW_SECS else 0
  }

  lemma {:induction false} RecentSplit(points: seq<Point>, windowStart: nat) returns (k: nat)
    ensures k <= |points| && Recent(points, windowStart) == points[k..]
    ensures forall i :: 0 <= i < k ==> points[i].ts < windowStart
    ensures k < |points| ==> points[k].ts >= windowStart
  {
    if points == [] || points[0].ts >= windowStart {
      k := 0;
    } else {
      var rest := RecentSplit(points[1..], windowStart);
      k := rest + 1;
      forall i | 0 <= i < k
        ensures points[i].ts < windowStart
      {
        assert i > 0 ==> points[i] == points[1..][i - 1];
      }
    }
  }

  lemma {:induction false} InWindowSplit(points: seq<Point>, windowStart: nat, k: nat)
    requires k <= |points|
    requires forall i :: 0 <= i < k ==> points[i].ts < windowStart
    requires forall i :: k <= i < |points| ==> points[i].ts >= windowStart
    ensures InWindow(points, windowStart) == points[k..]
  {
    if points != [] {
      var front := points[..|points| - 1];
      if k == |points| {
        InWindowSplit(front, windowStart, k - 1);
      } else {
        InWindowSplit(front, windowStart, k);
        assert points[k..] == front[k..] + [points[|points| - 1]];
      }
    }
  }

  /** With a clock that never steps back, popping the front keeps exactly the points inside the window. */
  lemma {:induction false} RecentIsInWindow(points: seq<Point>, windowStart: nat)
    requires InOrder(points)
    ensures Recent(points, windowStart) == InWindow(points, windowStart)
  {
    var k := RecentSplit(points, windowStart);
    InWindowSplit(points, windowStart, k);
  }

  /** Popping in steps is popping once: what an earlier, smaller start dropped is dropped by a later one. */
  lemma {:induction false} RecentOfRecent(points: seq<Point>, earlier: nat, later: nat, next: Point)
    requires earlier <= later
    ensures Recent(Recent(points, earlier) + [next], later) == Recent(points + [next], later)
  {
    if points != [] && points[0].ts < earlier {
      assert (points + [next])[1..] == points[1..] + [next];
      RecentOfRecent(points[1..], earlier, later, next);
    }
  }

  /** The points a run has held on to: at each push those before the window are popped, up to the first inside it. */
  function Held(run: seq<Point>): seq<Point> {
    if run == [] then []
    else
      var last := run[|run| - 1];
      Recent(Held(run[..|run| - 1]) + [last], WindowStart(last.ts))
  }

  /** Pushing on from point k never pops it. */
  ghost predicate Stays(run: seq<Point>, k: nat)
    requires k < |run|
  {
    forall j :: k <= j < |run| ==> run[k].ts >= WindowStart(run[j].ts)
  }

  ghost predicate IsFirstToStay(run: seq<Point>, k: nat) {
    && k < |run| && Stays(run, k)
    && forall i :: 0 <= i < k ==> !Stays(run, i)
  }

  /** They are the points from the first one on that no push since its own has popped. */
  lemma {:induction false} HeldFromTheFirstToStay(run: seq<Point>, k: nat)
    requires IsFirstToStay(run, k)
    ensures Held(run) == run[k..]
  {
    var first := HeldAreTheNewest(run);
  }

  lemma {:induction false} HeldAreTheNewest(run: seq<Point>) returns (k: nat)
    requires run != []
    ensures IsFirstToStay(run, k) && Held(run) == run[k..]
  {
    var n := |run| - 1;
    var before := 0;
    if n == 0 {
      assert run[..n] == [] && run[..n][0..] == [];
    } else {
      before := HeldAreTheNewest(run[..n]);
      FrontStays(run);
    }
    TailOneMore(run, before);
    k := RecentOfNewest(run, before, WindowStart(run[n].ts));
    FirstAfterPops(run, before, k);
  }

  /** A point stays if it stayed before the last push and that one does not reach it. */
  lemma FrontStays(run: seq<Point>)
    requires |run| > 1
    ensures forall k: nat :: k < |run| - 1 ==>
              (Stays(run, k) <==> Stays(run[..|run| - 1], k) && run[k].ts >= WindowStart(run[|run| - 1].ts))
  {
    var n := |run| - 1;
    assert forall k :: 0 <= k < n ==> run[..n][k] == run[k];
  }

  /** Those left by the pushes before stayed so far, and the last push pops the first of them that are too old. */
  lemma FirstAfterPops(run: seq<Point>, before: nat, k: nat)
    requires run != []
    requires |run| > 1 ==> IsFirstToStay(run[..|run| - 1], before)
    requires |run| == 1 ==> before == 0
    requires before <= k < |run| && run[k].ts >= WindowStart(run[|run| - 1].ts)
    requires forall i :: before <= i < k ==> run[i].ts < WindowStart(run[|run| - 1].ts)
    ensures IsFirstToStay(run, k)
  {
    var n := |run| - 1;
    forall j | k <= j < |run|
      ensures run[k].ts >= WindowStart(run[j].ts)
    {
      if before < k && j < n {
        assert run[before].ts < run[k].ts;
        assert run[..n][before].ts >= WindowStart(run[..n][j].ts);
      } else if j < n {
        assert run[..n][k].ts >= WindowStart(run[..n][j].ts);
      }
    }
    forall i | 0 <= i < k
      ensures !Stays(run, i)
    {
      if i < before {
        FrontStays(run);
      }
    }
  }

  lemma TailOneMore(run: seq<Point>, from: nat)
    requires from < |run|
    ensures run[..|run| - 1][from..] + [run[|run| - 1]] == run[from..]
  {
  }

  /** Popping leaves a tail, and the last point if that is inside the window. */
  lemma RecentOfNewest(run: seq<Point>, from: nat, windowStart: nat) returns (k: nat)
    requires from < |run| && run[|run| - 1].ts >= windowStart
    ensures from <= k < |run| && Recent(run[from..], windowStart) == run[k..] && run[k].ts >= windowStart
    ensures forall i :: from <= i < k ==> run[i].ts < windowStart
  {
    var tail := run[from..];
    var more := RecentSplit(tail, windowStart);
    assert tail[|tail| - 1] == run[|run| - 1];
    k := from + more;
    assert tail[more..] == run[k..] && tail[more] == run[k];
    forall i | from <= i < k
      ensures run[i].ts < windowStart
    {
      assert tail[i - from] == run[i];
    }
  }

  lemma {:induction false} InWindowSize(points: seq<Point>, windowStart: nat)
    ensures |InWindow(points, windowStart)| <= |points|
    ensures forall p :: p in InWindow(points, windowStart) ==> p.ts >= windowStart
    ensures |InWindow(points, windowStart)| == |points| <==> forall i :: 0 <= i < |points| ==> points[i].ts >= windowStart
    ensures InWindow(points, windowStart) == [] <==> forall i :: 0 <= i < |points| ==> points[i].ts < windowStart
  {
    if points != [] {
      InWindowSize(points[..|points| - 1], windowStart);
    }
  }

  lemma {:induction false} InWindowOfBoth(a: seq<Point>, b: seq<Point>, windowStart: nat)
    ensures InWindow(a + b, windowStart) == InWindow(a, windowStart) + InWindow(b, windowStart)
  {
    if b == [] {
      assert a + b == a;
    } else {
      assert (a + b)[..|a + b| - 1] == a + b[..|b| - 1];
      InWindowOfBoth(a, b[..|b| - 1], windowStart);
    }
  }

  /** Nothing inside the window was popped, and nothing outside it is held. */
  ghost predicate SplitsAt(run: seq<Point>, windowStart: nat, k: nat)
    requires k <= |run|
  {
    && (forall i :: 0 <= i < k ==> run[i].ts < windowStart)
    && (forall i :: k <= i < |run| ==> run[i].ts >= windowStart)
  }

  /** What a run holds is what lies in its window if and only if the points from some place on, and no others, lie in the
      window, and no push popped the one at that place. */
  lemma {:induction false} HeldIsTheWindowIff(run: seq<Point>)
    requires run != []
    ensures var windowStart := WindowStart(run[|run| - 1].ts);
            Held(run) == InWindow(run, windowStart)
            <==> exists k: nat :: k < |run| && SplitsAt(run, windowStart, k) && Stays(run, k)
  {
    var windowStart := WindowStart(run[|run| - 1].ts);
    var first := HeldAreTheNewest(run);
    NewestAreTheWindowIff(run, windowStart, first);
    if k: nat :| k < |run| && SplitsAt(run, windowStart, k) && Stays(run, k) {
      assert first <= k;
      assert run[first].ts >= windowStart;
    }
  }

  lemma {:induction false} NewestAreTheWindowIff(run: seq<Point>, windowStart: nat, k: nat)
    requires k <= |run|
    ensures run[k..] == InWindow(run, windowStart) <==> SplitsAt(run, windowStart, k)
  {
    var popped, held := run[..k], run[k..];
    if SplitsAt(run, windowStart, k) {
      InWindowSplit(run, windowStart, k);
    }
    assert run == popped + held;
    InWindowOfBoth(popped, held, windowStart);
    InWindowSize(popped, windowStart);
    InWindowSize(held, windowStart);
    if held == InWindow(run, windowStart) {
      SuffixIsWindow(held, InWindow(popped, windowStart), InWindow(held, windowStart), windowStart);
      SplitsThere(run, windowStart, k);
    }
  }

  lemma SplitsThere(run: seq<Point>, windowStart: nat, k: nat)
    requires k <= |run|
    requires (forall i :: 0 <= i < |run[..k]| ==> run[..k][i].ts < windowStart)
    requires forall i :: 0 <= i < |run[k..]| ==> run[k..][i].ts >= windowStart
    ensures SplitsAt(run, windowStart, k)
  {
    forall i | 0 <= i < k
      ensures run[i].ts < windowStart
    {
      assert run[..k][i] == run[i];
    }
    forall i | k <= i < |run|
      ensures run[i].ts >= windowStart
    {
      assert run[k..][i - k] == run[i];
    }
  }

  /** All of `held` is in the window, so none of it was left to the popped ones. */
  lemma {:induction false} SuffixIsWindow(held: seq<Point>, fromPopped: seq<Point>, fromHeld: seq<Point>,
                                          windowStart: nat)
    requires held == fromPopped + fromHeld
    requires (forall p :: p in fromPopped ==> p.ts >= windowStart) && (forall p :: p in fromHeld ==> p.ts >= windowStart)
    requires fromHeld == InWindow(held, windowStart)
    ensures fromPopped == [] && forall i :: 0 <= i < |held| ==> held[i].ts >= windowStart
  {
    forall i | 0 <= i < |held|
      ensures held[i].ts >= windowStart
    {
      assert held[i] in fromPopped || held[i] in fromHeld;
    }
    InWindowSize(held, windowStart);
  }

  /** With a clock that never steps back that is so at each push. */
  lemma {:induction false} InOrderHeldIsTheWindow(run: seq<Point>)
    requires run != [] && InOrder(run)
    ensures Held(run) == InWindow(run, WindowStart(run[|run| - 1].ts))
  {
    var n := |run| - 1;
    if n > 0 {
      InOrderHeldIsTheWindow(run[..n]);
      RecentIsInWindow(run[..n], WindowStart(run[n - 1].ts));
      RecentOfRecent(run[..n], WindowStart(run[n - 1].ts), WindowStart(run[n].ts), run[n]);
    }
    assert run[..n] + [run[n]] == run;
    RecentIsInWindow(run, WindowStart(run[n].ts));
  }

  // ----- a clock that steps back -----

  /** The slope takes the first point's time from each point's, as unsigned numbers. */
  predicate Underflows(points: seq<Point>) {
    exists i :: 0 <= i < |points| && points[i].ts < points[0].ts
  }

  /** A run reports its slope once the newest sample is a whole window after the first. */
  predicate IsWhole(run: seq<Point>)
    requires run != []
  {
    run[|run| - 1].ts >= run[0].ts + MEMORY_WINDOW_SECS
  }

  /** A slope of what a run holds takes a later time from an earlier one if and only if, after the first point that no
      push popped, an earlier time was pushed. */
  lemma {:induction false} UnderflowsIff(run: seq<Point>, k: nat)
    requires IsFirstToStay(run, k)
    ensures Underflows(Held(run)) <==> exists i :: k < i < |run| && run[i].ts < run[k].ts
  {
    HeldFromTheFirstToStay(run, k);
    if i :| k < i < |run| && run[i].ts < run[k].ts {
      assert run[k..][i - k] == run[i];
    }
  }

  /** With a clock that never steps back there is none. */
  lemma {:induction false} InOrderNeverUnderflows(run: seq<Point>)
    requires InOrder(run)
    ensures !Underflows(Held(run))
  {
    if run != [] {
      var k := HeldAreTheNewest(run);
      UnderflowsIff(run, k);
    }
  }

  /** A sample an hour after a whole window, and then one a whole window after the first: the later one is first in the
      deque, and the slope is asked for. */
  lemma SteppingBackUnderflows(kb: nat)
    ensures var run := [Point(0, kb), Point(90_000, kb), Point(86_400, kb)];
            IsWhole(run) && Held(run) == run[1..] && Underflows(Held(run))
  {
    var run := [Point(0, kb), Point(90_000, kb), Point(86_400, kb)];
    assert run[0].ts < WindowStart(run[1].ts);
    HeldFromTheFirstToStay(run, 1);
    UnderflowsIff(run, 1);
  }

  /** A sample that a later clock popped, and then the clock is back before that: the window has three points, and two
      are held. */
  lemma SteppingBackHoldsLess(kb: nat)
    ensures var run := [Point(0, kb), Point(90_000, kb), Point(80_000, kb)];
            Held(run) == run[1..] && InWindow(run, WindowStart(80_000)) == run
  {
    var run := [Point(0, kb), Point(90_000, kb), Point(80_000, kb)];
    assert run[0].ts < WindowStart(run[1].ts);
    HeldFromTheFirstToStay(run, 1);
    InWindowSplit(run, 0, 0);
  }

  /** A sample from before the window, behind one that is inside: the window has two points, and three are held. */
  lemma SteppingBackHoldsMore(kb: nat)
    ensures var run := [Point(100_000, kb), Point(5_000, kb), Point(100_000, kb)];
            Held(run) == run && InWindow(run, WindowStart(100_000)) == [run[0], run[2]]
  {
    var run := [Point(100_000, kb), Point(5_000, kb), Point(100_000, kb)];
    HeldFromTheFirstToStay(run, 0);
    assert run[..2] == [run[0], run[1]] && run[..2][..1] == [run[0]];
    assert InWindow(run[..2][..1], 13_600) == [run[0]];
  }

  class RssWindow {
    var pid: Option<nat>
    var runFirstTs: nat
    var points: seq<Point>
    // every sample of the current pid, oldest first
    ghost var run: seq<Point>

    ghost predicate Valid()
      reads this
    {
      && (pid.None? <==> run == [])
      && (run != [] ==> runFirstTs == run[0].ts)
      && points == Held(run)
    }

    constructor ()
      ensures Valid() && pid == None && run == []
    {
      pid, runFirstTs, points, run := None, 0, [], [];
    }

    /** Adds a sample, starting over for another process. The growth is that of the points held, once the run is whole.
        Nothing is promised where a later time would be taken from an earlier one. */
    method Push(pid: nat, ts: nat, rssKb: nat) returns (growth: Option<real>)
      requires Valid()
      modifies this
      ensures Valid() && this.pid == Some(pid)
      ensures run == (if old(this.pid) == Some(pid) then old(run) else []) + [Point(ts, rssKb)]
      ensures !IsWhole(run) ==> growth == None
      ensures IsWhole(run) && !Underflows(Held(run)) ==> growth == KibPerHour(Held(run))
    {
      if this.pid != Some(pid) {
        this.pid := Some(pid);
        runFirstTs := ts;
        points, run := [], [];
      }
      Add(Point(ts, rssKb));
      var wholeWindow := (if ts >= runFirstTs then ts - runFirstTs else 0) >= MEMORY_WINDOW_SECS;
      growth := if wholeWindow then KibPerHour(points) else None;
    }

    method Add(point: Point)
      requires points == Held(run)
      modifies this`points, this`run
      ensures run == old(run) + [point] && points == Held(run)
    {
      assert (run + [point])[..|run|] == run;
      points, run := points + [point], run + [point];
      PopBefore(WindowStart(point.ts));
    }

    method PopBefore(windowStart: nat)
      modifies this`points
      ensures points == Recent(old(points), windowStart)
    {
      while points != [] && points[0].ts < windowStart
        invariant Recent(points, windowStart) == Recent(old(points), windowStart)
        decreases |points|
      {
        points := points[1..];
      }
    }
  }
}
