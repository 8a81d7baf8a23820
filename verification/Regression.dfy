/** Interpolation::line over exact reals: batch and incremental regression, and the three-point
    parabola. Where the source would divide by zero its doubles become infinities or NaNs; here the
    flag `finite` says that no such division happened. */
module Regression {

  datatype Point = Point(x: real, y: real)

  /** b00, b01, b02, c0 and c1: the accumulated sums. */
  datatype Sums = Sums(b00: real, b01: real, b02: real, c0: real, c1: real)

  ghost function SumsOf(ps: seq<Point>): Sums {
    if ps == [] then Sums(0.0, 0.0, 0.0, 0.0, 0.0)
    else WithPoint(SumsOf(ps[..|ps| - 1]), ps[|ps| - 1])
  }

  ghost function WithPoint(s: Sums, p: Point): Sums {
    Sums(s.b00 + 1.0, s.b01 + p.x, s.b02 + p.x * p.x, s.c0 + p.y, s.c1 + p.x * p.y)
  }

  /** The discriminant q of regressCalcCoefficients. */
  ghost function Discriminant(s: Sums): real {
    s.b02 * s.b00 - s.b01 * s.b01
  }

  ghost predicate TwoDistinct(ps: seq<Point>) {
    exists i, j :: 0 <= i < j < |ps| && ps[i].x != ps[j].x
  }

  function Times(a: real, b: real): real {
    a * b
  }

  function Square(r: real): real {
    Times(r, r)
  }

  lemma TimesPositive(a: real, b: real)
    requires a > 0.0 && b > 0.0
    ensures Times(a, b) > 0.0
  {
  }

  lemma TimesOfNegations(a: real, b: real)
    ensures Times(-a, -b) == Times(a, b)
  {
  }

  lemma SquareSign(r: real)
    ensures Square(r) >= 0.0 && (Square(r) == 0.0 <==> r == 0.0)
  {
    assert Times(0.0, 0.0) == 0.0;
    hide Times;
    if r > 0.0 {
      TimesPositive(r, r);
    } else if r < 0.0 {
      TimesOfNegations(r, r);
      TimesPositive(-r, -r);
    }
  }

  /** The line a + b x at x. */
  function Value(a: real, b: real, x: real): real {
    a + b * x
  }

  ghost function PointsOf(x: seq<real>, y: seq<real>): (ps: seq<Point>)
    requires |x| == |y|
    ensures |ps| == |x| && forall i :: 0 <= i < |x| ==> ps[i] == Point(x[i], y[i])
  {
    seq(|x|, i requires 0 <= i < |x| => Point(x[i], y[i]))
  }

  /** Sum of squared residuals of the line a + b x. */
  ghost function Residuals(ps: seq<Point>, a: real, b: real): real {
    if ps == [] then 0.0
    else
      var p := ps[|ps| - 1];
      Residuals(ps[..|ps| - 1], a, b) + Square(p.y - Value(a, b, p.x))
  }

  /** The residuals of one point more, and of none. */
  lemma ResidualsGrow(ps: seq<Point>, p: Point, a: real, b: real)
    ensures Residuals([], a, b) == 0.0
    ensures Residuals(ps + [p], a, b) == Residuals(ps, a, b) + (p.y - (a + b * p.x)) * (p.y - (a + b * p.x))
  {
    assert (ps + [p])[..|ps|] == ps;
  }

  /** The sum of squared residuals is never negative, and zero exactly when every point lies on the
      line. */
  lemma {:induction false} ResidualsVanishExactly(ps: seq<Point>, a: real, b: real)
    ensures Residuals(ps, a, b) >= 0.0
    ensures Residuals(ps, a, b) == 0.0 <==> forall i :: 0 <= i < |ps| ==> ps[i].y == a + b * ps[i].x
  {
    if ps == [] {
    } else {
      var front, p := ps[..|ps| - 1], ps[|ps| - 1];
      ResidualsVanishExactly(front, a, b);
      SquareSign(p.y - Value(a, b, p.x));
      hide Square;
      assert forall i :: 0 <= i < |front| ==> ps[i] == front[i];
      assert Residuals(ps, a, b) == 0.0 <==> Residuals(front, a, b) == 0.0 && p.y == a + b * p.x;
    }
  }

  /** Sum of the squares of a + b x over the points' x. */
  ghost function Spread(ps: seq<Point>, a: real, b: real): real {
    if ps == [] then 0.0
    else Spread(ps[..|ps| - 1], a, b) + Square(Value(a, b, ps[|ps| - 1].x))
  }

  /** The spread as a quadratic form in the sums. */
  ghost function Quadratic(s: Sums, a: real, b: real): real {
    a * a * s.b00 + 2.0 * a * b * s.b01 + b * b * s.b02
  }

  lemma QuadraticOfPoint(s: Sums, p: Point, a: real, b: real)
    ensures Quadratic(WithPoint(s, p), a, b) == Quadratic(s, a, b) + Square(Value(a, b, p.x))
  {
    assert Square(a + b * p.x) == a * a + 2.0 * a * b * p.x + b * b * (p.x * p.x);
    assert a * a * (s.b00 + 1.0) == a * a * s.b00 + a * a;
    assert 2.0 * a * b * (s.b01 + p.x) == 2.0 * a * b * s.b01 + 2.0 * a * b * p.x;
    assert b * b * (s.b02 + p.x * p.x) == b * b * s.b02 + b * b * (p.x * p.x);
  }

  lemma QuadraticOfNothing(a: real, b: real)
    ensures Quadratic(Sums(0.0, 0.0, 0.0, 0.0, 0.0), a, b) == 0.0
  {
  }

  lemma {:induction false} SpreadIsQuadratic(ps: seq<Point>, a: real, b: real)
    ensures Spread(ps, a, b) == Quadratic(SumsOf(ps), a, b)
  {
    hide Square, Quadratic, WithPoint, Value;
    if ps == [] {
      QuadraticOfNothing(a, b);
    } else {
      SpreadIsQuadratic(ps[..|ps| - 1], a, b);
      QuadraticOfPoint(SumsOf(ps[..|ps| - 1]), ps[|ps| - 1], a, b);
    }
  }

  lemma {:induction false} SpreadSign(ps: seq<Point>, a: real, b: real)
    ensures Spread(ps, a, b) >= 0.0
    ensures Spread(ps, a, b) == 0.0 <==> forall i :: 0 <= i < |ps| ==> Value(a, b, ps[i].x) == 0.0
  {
    if ps == [] {
    } else {
      hide Square, Value;
      SpreadSign(ps[..|ps| - 1], a, b);
      SquareSign(Value(a, b, ps[|ps| - 1].x));
    }
  }

  /** The Lagrange identity, one point at a time: adding a point raises the discriminant by the
      squared distances from it to all earlier points. */
  lemma DiscriminantGrows(ps: seq<Point>)
    requires ps != []
    ensures var front, x := ps[..|ps| - 1], ps[|ps| - 1].x;
            Discriminant(SumsOf(ps)) == Discriminant(SumsOf(front)) + Spread(front, -x, 1.0)
  {
    hide Discriminant, Quadratic, Spread;
    var front, p := ps[..|ps| - 1], ps[|ps| - 1];
    SpreadIsQuadratic(front, -p.x, 1.0);
    DiscriminantOfPoint(SumsOf(front), p);
  }

  lemma DiscriminantOfPoint(s: Sums, p: Point)
    ensures Discriminant(WithPoint(s, p)) == Discriminant(s) + Quadratic(s, -p.x, 1.0)
  {
    var x := p.x;
    assert (s.b02 + x * x) * (s.b00 + 1.0) == s.b02 * s.b00 + s.b02 + x * x * s.b00 + x * x;
    assert (s.b01 + x) * (s.b01 + x) == s.b01 * s.b01 + 2.0 * x * s.b01 + x * x;
  }

  /** The coefficients are determined exactly when two points differ in x. */
  lemma {:induction false} DiscriminantIsPositiveExactly(ps: seq<Point>)
    ensures Discriminant(SumsOf(ps)) >= 0.0
    ensures Discriminant(SumsOf(ps)) > 0.0 <==> TwoDistinct(ps)
  {
    hide Discriminant, SumsOf, Spread, TwoDistinct;
    if ps == [] {
      NoPoints();
    } else {
      var n := |ps| - 1;
      DiscriminantIsPositiveExactly(ps[..n]);
      DiscriminantGrows(ps);
      SpreadSign(ps[..n], -ps[n].x, 1.0);
      OneMoreDistinct(ps);
    }
  }

  lemma NoPoints()
    ensures Discriminant(SumsOf([])) == 0.0 && !TwoDistinct([])
  {
  }

  /** A new point brings a second x exactly when it lies away from some earlier point. */
  lemma OneMoreDistinct(ps: seq<Point>)
    requires ps != []
    ensures var front, x := ps[..|ps| - 1], ps[|ps| - 1].x;
            TwoDistinct(ps) <==> TwoDistinct(front) || Spread(front, -x, 1.0) > 0.0
  {
    var n := |ps| - 1;
    var front, x := ps[..n], ps[n].x;
    SpreadSign(front, -x, 1.0);
    hide Spread;
    if TwoDistinct(front) {
      var i, j :| 0 <= i < j < |front| && front[i].x != front[j].x;
      assert ps[i].x != ps[j].x;
    } else if Spread(front, -x, 1.0) != 0.0 {
      var i :| 0 <= i < |front| && Value(-x, 1.0, front[i].x) != 0.0;
      assert ps[i].x != ps[n].x;
    } else {
      forall i | 0 <= i < |front|
        ensures ps[i].x == x
      {
        assert Value(-x, 1.0, front[i].x) == 0.0;
      }
    }
  }

  // ---------- least squares ----------

  /** The normal equations of the line a + b x. */
  ghost predicate Normal(s: Sums, a: real, b: real) {
    && a * s.b00 + b * s.b01 == s.c0
    && a * s.b01 + b * s.b02 == s.c1
  }

  /** What regressCalcCoefficients computes. */
  ghost function Slope(s: Sums): real
    requires Discriminant(s) != 0.0
  {
    (s.c1 * s.b00 - s.c0 * s.b01) / Discriminant(s)
  }

  ghost function Intercept(s: Sums): real
    requires Discriminant(s) != 0.0 && s.b00 != 0.0
  {
    (s.c0 - Slope(s) * s.b01) / s.b00
  }

  /** The coefficients computed from the sums, and the normal equations they solve. */
  lemma CoefficientsAreNormal(s: Sums)
    requires Discriminant(s) != 0.0 && s.b00 != 0.0
    ensures Normal(s, Intercept(s), Slope(s))
  {
    var b, a, q := Slope(s), Intercept(s), Discriminant(s);
    DivideBack(s.c1 * s.b00 - s.c0 * s.b01, q);
    DivideBack(s.c0 - b * s.b01, s.b00);
    SecondNormalEquation(s.b00, s.b01, s.b02, s.c0, s.c1, q, a, b);
    Cancel(s.b00, a * s.b01 + b * s.b02, s.c1);
  }

  lemma DivideBack(x: real, q: real)
    requires q != 0.0
    ensures (x / q) * q == x
  {
  }

  lemma SecondNormalEquation(n: real, x: real, xx: real, y: real, xy: real, q: real, a: real, b: real)
    requires q == xx * n - x * x && b * q == xy * n - y * x && a * n == y - b * x && n != 0.0
    ensures n * (a * x + b * xx) == n * xy
  {
    assert n * (a * x) == (a * n) * x;
    assert n * (b * xx) == b * (xx * n);
    assert b * q == b * (xx * n) - b * (x * x);
    assert (y - b * x) * x == y * x - b * (x * x);
    assert n * (a * x + b * xx) == n * (a * x) + n * (b * xx);
  }

  lemma Cancel(k: real, u: real, v: real)
    requires k != 0.0 && k * u == k * v
    ensures u == v
  {
    assert k * (u - v) == 0.0;
    assert (k * (u - v)) / k == u - v;
  }

  /** What the normal equations leave over, weighted by da and db. */
  ghost function Slack(s: Sums, a0: real, b0: real, da: real, db: real): real {
    da * (s.c0 - a0 * s.b00 - b0 * s.b01) + db * (s.c1 - a0 * s.b01 - b0 * s.b02)
  }

  lemma SlackOfPoint(s: Sums, p: Point, a0: real, b0: real, da: real, db: real)
    ensures Slack(WithPoint(s, p), a0, b0, da, db)
         == Slack(s, a0, b0, da, db) + Times(p.y - Value(a0, b0, p.x), Value(da, db, p.x))
  {
    var r := p.y - (a0 + b0 * p.x);
    var u, v := s.c0 - a0 * s.b00 - b0 * s.b01, s.c1 - a0 * s.b01 - b0 * s.b02;
    assert r * p.x == p.x * p.y - a0 * p.x - b0 * (p.x * p.x);
    assert (s.c0 + p.y) - a0 * (s.b00 + 1.0) - b0 * (s.b01 + p.x) == u + r;
    assert (s.c1 + p.x * p.y) - a0 * (s.b01 + p.x) - b0 * (s.b02 + p.x * p.x) == v + r * p.x;
    assert da * (u + r) + db * (v + r * p.x) == da * u + db * v + (da * r + db * (r * p.x));
    assert r * (da + db * p.x) == da * r + db * (r * p.x);
  }

  lemma SquareOfDifference(r: real, d: real)
    ensures Square(r - d) == Square(r) + Square(d) - 2.0 * Times(r, d)
  {
  }

  lemma SlackVanishes(s: Sums, a: real, b: real, da: real, db: real)
    requires Normal(s, a, b) || s == Sums(0.0, 0.0, 0.0, 0.0, 0.0)
    ensures Slack(s, a, b, da, db) == 0.0
  {
    var u, v := s.c0 - a * s.b00 - b * s.b01, s.c1 - a * s.b01 - b * s.b02;
    assert u == 0.0 && v == 0.0;
    assert da * u + db * v == 0.0;
  }

  /** Residuals of another line: those of a0 + b0 x, plus a spread, less twice the slack. */
  lemma {:induction false} ResidualsOfAnother(ps: seq<Point>, a0: real, b0: real, da: real, db: real)
    ensures Residuals(ps, a0 + da, b0 + db)
         == Residuals(ps, a0, b0) + Spread(ps, da, db) - 2.0 * Slack(SumsOf(ps), a0, b0, da, db)
  {
    if ps == [] {
      SlackVanishes(SumsOf(ps), a0, b0, da, db);
    } else {
      hide Slack, Square, WithPoint, Value, Times;
      var front, p := ps[..|ps| - 1], ps[|ps| - 1];
      ResidualsOfAnother(front, a0, b0, da, db);
      SlackOfPoint(SumsOf(front), p, a0, b0, da, db);
      SquareOfDifference(p.y - Value(a0, b0, p.x), Value(da, db, p.x));
      ValueOfSum(a0, b0, da, db, p.x);
    }
  }

  lemma ValueOfSum(a0: real, b0: real, da: real, db: real, x: real)
    ensures Value(a0 + da, b0 + db, x) == Value(a0, b0, x) + Value(da, db, x)
  {
  }

  /** A line that meets the normal equations has the least sum of squared residuals; with two
      distinct x every other line does worse. */
  lemma NormalIsLeastSquares(ps: seq<Point>, a0: real, b0: real, a: real, b: real)
    requires Normal(SumsOf(ps), a0, b0)
    ensures Residuals(ps, a0, b0) <= Residuals(ps, a, b)
    ensures TwoDistinct(ps) && (a != a0 || b != b0) ==> Residuals(ps, a0, b0) < Residuals(ps, a, b)
  {
    hide Slack, Residuals, Spread, TwoDistinct;
    var da, db := a - a0, b - b0;
    SpreadSign(ps, da, db);
    ResidualsOfAnother(ps, a0, b0, da, db);
    SlackVanishes(SumsOf(ps), a0, b0, da, db);
    assert a0 + da == a && b0 + db == b;
    if TwoDistinct(ps) && Spread(ps, da, db) == 0.0 {
      NoSpread(ps, da, db);
    }
  }

  /** Only the zero line vanishes at two distinct x. */
  lemma NoSpread(ps: seq<Point>, a: real, b: real)
    requires TwoDistinct(ps) && Spread(ps, a, b) == 0.0
    ensures a == 0.0 && b == 0.0
  {
    SpreadSign(ps, a, b);
    hide Spread;
    var i, j :| 0 <= i < j < |ps| && ps[i].x != ps[j].x;
    var u, v := ps[i].x, ps[j].x;
    assert Value(a, b, u) == 0.0 && Value(a, b, v) == 0.0;
    assert (u - v) * b == 0.0;
    Cancel(u - v, b, 0.0);
  }

  /** Every line through at least two distinct x is beaten by the fitted one. */
  ghost predicate BestFit(ps: seq<Point>, a0: real, b0: real) {
    forall a: real, b: real :: (a, b) != (a0, b0) ==> Residuals(ps, a0, b0) < Residuals(ps, a, b)
  }

  lemma FittedLineIsBest(ps: seq<Point>)
    requires TwoDistinct(ps)
    ensures var s := SumsOf(ps);
            && Discriminant(s) > 0.0 && s.b00 > 0.0
            && BestFit(ps, Intercept(s), Slope(s))
  {
    DiscriminantIsPositiveExactly(ps);
    CountIsLength(ps);
    var s := SumsOf(ps);
    CoefficientsAreNormal(s);
    forall a: real, b: real | (a, b) != (Intercept(s), Slope(s))
      ensures Residuals(ps, Intercept(s), Slope(s)) < Residuals(ps, a, b)
    {
      NormalIsLeastSquares(ps, Intercept(s), Slope(s), a, b);
    }
  }

  lemma {:induction false} CountIsLength(ps: seq<Point>)
    ensures SumsOf(ps).b00 == |ps| as real
  {
    if ps == [] {
    } else {
      CountIsLength(ps[..|ps| - 1]);
    }
  }

  lemma SumsOfNone()
    ensures SumsOf([]) == Sums(0.0, 0.0, 0.0, 0.0, 0.0)
  {
  }

  lemma SumsOfNext(ps: seq<Point>, i: nat)
    requires i < |ps|
    ensures SumsOf(ps[..i + 1]) == WithPoint(SumsOf(ps[..i]), ps[i])
  {
    assert ps[..i + 1][..i] == ps[..i];
  }

  lemma Formulas(b00: real, b01: real, b02: real, c0: real, c1: real)
    ensures var sums := Sums(b00, b01, b02, c0, c1);
            && Discriminant(sums) == b02 * b00 - b01 * b01
            && (Discriminant(sums) != 0.0 ==> Slope(sums) == (c1 * b00 - c0 * b01) / (b02 * b00 - b01 * b01))
            && (Discriminant(sums) != 0.0 && b00 != 0.0 ==> Intercept(sums) == (c0 - Slope(sums) * b01) / b00)
  {
  }

  lemma TwoPointsCount(ps: seq<Point>)
    ensures TwoDistinct(ps) ==> SumsOf(ps).b00 > 0.0
  {
    CountIsLength(ps);
  }

  // ---------- the object ----------

  lemma SumsGrow(ps: seq<Point>, p: Point)
    ensures SumsOf(ps + [p]) == WithPoint(SumsOf(ps), p)
  {
    assert (ps + [p])[..|ps|] == ps;
  }

  /** The first n points lie on the line a + b x. */
  ghost predicate OnLine(n: nat, x: array<real>, y: array<real>, a: real, b: real)
    requires n <= x.Length && n <= y.Length
    reads x, y
  {
    forall i :: 0 <= i < n ==> y[i] == a + b * x[i]
  }

  lemma LineThroughAll(n: nat, x: array<real>, y: array<real>, a: real, b: real)
    requires n <= x.Length && n <= y.Length
    ensures var sum := Residuals(PointsOf(x[..n], y[..n]), a, b);
            sum >= 0.0 && (sum == 0.0 <==> OnLine(n, x, y, a, b))
  {
    var ps := PointsOf(x[..n], y[..n]);
    ResidualsVanishExactly(ps, a, b);
    hide Residuals;
    assert forall i :: 0 <= i < n ==> ps[i].x == x[i] && ps[i].y == y[i];
  }

  class Line {
    var cf0: real
    var cf1: real
    var b00: real
    var b01: real
    var b02: real
    var c0: real
    var c1: real
    var s: real
    var q: real
    var finite: bool
    var resSum: real
    ghost var points: seq<Point>

    /** The sums are those of all points so far, and the coefficients are what a batch fit of them
        all would give: there are any exactly when two x differ, and then no line does better. */
    ghost predicate Valid()
      reads this
    {
      && Sums(b00, b01, b02, c0, c1) == SumsOf(points)
      && (finite <==> TwoDistinct(points))
      && (finite ==>
            && Discriminant(SumsOf(points)) != 0.0 && SumsOf(points).b00 != 0.0
            && cf0 == Intercept(SumsOf(points)) && cf1 == Slope(SumsOf(points))
            && BestFit(points, cf0, cf1))
    }

    constructor ()
      ensures points == [] && Sums(b00, b01, b02, c0, c1) == SumsOf([])
      ensures cf0 == 0.0 && cf1 == 1.0
    {
      cf0, cf1, b00, b01, b02, c0, c1, s, q := 0.0, 1.0, 0.0, 0.0, 0.0, 0.0, 0.0, 0.0, 0.0;
      finite, resSum := true, 0.0;
      points := [];
    }

    method RegressCalcCoefficients()
      requires Sums(b00, b01, b02, c0, c1) == SumsOf(points)
      modifies `s, `q, `cf0, `cf1, `finite
      ensures Valid()
    {
      hide SumsOf, BestFit, TwoDistinct, Discriminant, Slope, Intercept;
      DiscriminantIsPositiveExactly(points);
      TwoPointsCount(points);
      Formulas(b00, b01, b02, c0, c1);
      s := c1 * b00 - c0 * b01;
      q := b02 * b00 - b01 * b01;
      finite := q != 0.0 && b00 != 0.0;
      assert finite <==> TwoDistinct(points);
      if finite {
        FittedLineIsBest(points);
        cf1 := s / q;
        assert cf1 == Slope(SumsOf(points));
        cf0 := (c0 - cf1 * b01) / b00;
        assert cf0 == Intercept(SumsOf(points));
        assert BestFit(points, cf0, cf1);
      }
      assert Sums(b00, b01, b02, c0, c1) == SumsOf(points);
    }

    method RegressAddPoint(x: real, y: real)
      requires Sums(b00, b01, b02, c0, c1) == SumsOf(points)
      modifies this
      ensures Valid() && points == old(points) + [Point(x, y)]
    {
      hide BestFit, TwoDistinct, Discriminant, Slope, Intercept;
      SumsGrow(points, Point(x, y));
      hide SumsOf;
      points := points + [Point(x, y)];
      b00 := b00 + 1.0;
      b01 := b01 + x;
      b02 := b02 + x * x;
      c0 := c0 + y;
      c1 := c1 + x * y;
      RegressCalcCoefficients();
    }

    method RegressBuild(nPoints: nat, x: array<real>, y: array<real>) returns (sum: real)
      requires nPoints <= x.Length && nPoints <= y.Length
      modifies this
      ensures Valid() && points == PointsOf(x[..nPoints], y[..nPoints])
      ensures finite ==> sum == resSum == Residuals(points, cf0, cf1)
      ensures finite ==> sum >= 0.0 && (sum == 0.0 <==> OnLine(nPoints, x, y, cf0, cf1))
    {
      hide BestFit, TwoDistinct, Residuals, Discriminant, Slope, Intercept, SumsOf;
      SumsOfNone();
      b00 := nPoints as real;
      c0, c1, b01, b02 := 0.0, 0.0, 0.0, 0.0;
      ghost var ps := PointsOf(x[..nPoints], y[..nPoints]);
      var i := 0;
      while i < nPoints
        invariant i <= nPoints && b00 == nPoints as real
        invariant Sums(i as real, b01, b02, c0, c1) == SumsOf(ps[..i])
        modifies this
      {
        SumsOfNext(ps, i);
        b01 := b01 + x[i];
        b02 := b02 + x[i] * x[i];
        c0 := c0 + y[i];
        c1 := c1 + x[i] * y[i];
        i := i + 1;
      }
      assert ps[..nPoints] == ps;
      points := ps;
      RegressCalcCoefficients();
      sum := SumOfSquaredResiduals(nPoints, x, y);
    }

    method SumOfSquaredResiduals(nPoints: nat, x: array<real>, y: array<real>) returns (sum: real)
      requires nPoints <= x.Length && nPoints <= y.Length
      modifies `resSum
      ensures sum == resSum == Residuals(PointsOf(x[..nPoints], y[..nPoints]), cf0, cf1)
      ensures sum >= 0.0
      ensures sum == 0.0 <==> OnLine(nPoints, x, y, cf0, cf1)
    {
      LineThroughAll(nPoints, x, y, cf0, cf1);
      hide Square, Value, OnLine;
      ghost var ps := PointsOf(x[..nPoints], y[..nPoints]);
      resSum := 0.0;
      var i := 0;
      while i < nPoints
        invariant i <= nPoints && resSum == Residuals(ps[..i], cf0, cf1)
        modifies `resSum
      {
        assert ps[..i + 1][..i] == ps[..i];
        resSum := resSum + Square(y[i] - Value(cf0, cf1, x[i]));
        i := i + 1;
      }
      assert ps[..nPoints] == ps;
      sum := resSum;
    }
  }
}
