/** Interpolation::parabola::ipBuild over exact reals: the parabola through three points. Where the
    source would divide by zero, the method here says so instead. */
module Parabola {
  import opened Regression

  /** c0 + c1 x + c2 x^2 */
  function ValueAt(c0: real, c1: real, c2: real, x: real): real {
    c0 + c1 * x + c2 * (x * x)
  }

  function Over(a: real, b: real): real
    requires b != 0.0
  {
    a / b
  }

  ghost predicate Through(c0: real, c1: real, c2: real, x: seq<real>, y: seq<real>)
    requires |x| == |y| == 3
  {
    forall i :: 0 <= i < 3 ==> ValueAt(c0, c1, c2, x[i]) == y[i]
  }

  ghost predicate Distinct(x: seq<real>)
    requires |x| == 3
  {
    x[0] != x[1] && x[0] != x[2] && x[1] != x[2]
  }

  lemma ZeroProduct(a: real, b: real)
    ensures a * b == 0.0 <==> a == 0.0 || b == 0.0
  {
    if a != 0.0 && a * b == 0.0 {
      assert (a * b) / a == b;
    }
  }

  /** The polynomial, in terms of the intermediate values of ipBuild. */
  function Form(s: real, t: real, q: real, c1: real, o: real, x: real): real
    requires o != 0.0
  {
    t + Times(s, Square(x)) + Times(c1, x - Over(Square(x), o) - q)
  }

  lemma Expand(s: real, t: real, q: real, c1: real, o: real, x: real)
    requires o != 0.0
    ensures ValueAt(t - Times(c1, q), c1, s - Over(c1, o), x) == Form(s, t, q, c1, o, x)
  {
    var u, w := Over(c1, o), Over(Square(x), o);
    DivideBack(c1, o);
    DivideBack(Square(x), o);
    ExpandProducts(s, t, q, c1, o, x, u, w);
  }

  lemma ExpandProducts(s: real, t: real, q: real, c1: real, o: real, x: real, u: real, w: real)
    requires u * o == c1 && w * o == x * x
    ensures (t - c1 * q) + c1 * x + (s - u) * (x * x) == t + s * (x * x) + c1 * (x - w - q)
  {
    assert u * (x * x) == u * (w * o);
    assert u * (w * o) == (u * o) * w;
    assert (s - u) * (x * x) == s * (x * x) - u * (x * x);
    assert c1 * (x - w - q) == c1 * x - c1 * w - c1 * q;
  }

  /** The divisor of the linear coefficient. */
  lemma LastDivisor(x0: real, x1: real, x2: real, o: real, q: real, d: real)
    requires o == x0 + x1 && o != 0.0
    requires q == x2 - Over(Square(x2), o) && d == x0 - Over(Square(x0), o) - q
    ensures d == 0.0 <==> x0 == x2 || x1 == x2
  {
    var v, w := (x2 * x2) / o, (x0 * x0) / o;
    assert v * o == x2 * x2 && w * o == x0 * x0;
    assert d * o == x0 * o - w * o - x2 * o + v * o;
    assert x0 * o == x0 * x0 + x0 * x1;
    assert x2 * o == x2 * x0 + x2 * x1;
    assert (x0 - x2) * (x1 - x2) == x0 * x1 - x0 * x2 - x2 * x1 + x2 * x2;
    ZeroProduct(d, o);
    ZeroProduct(x0 - x2, x1 - x2);
  }

  lemma DifferenceOfSquares(a: real, b: real)
    ensures a * a - b * b == (a - b) * (a + b)
    ensures Square(a) - Square(b) == 0.0 <==> a == b || a + b == 0.0
  {
    ZeroProduct(a - b, a + b);
  }

  lemma FirstPoint(x0: real, y0: real, o: real, s: real, t: real, q: real, d: real, c1: real)
    requires o != 0.0 && d != 0.0 && d == x0 - Over(Square(x0), o) - q
    requires c1 == Over(y0 - Times(s, Square(x0)) - t, d)
    ensures Form(s, t, q, c1, o, x0) == y0
  {
    DivideBack(y0 - Times(s, Square(x0)) - t, d);
  }

  /** The second point, from the first: the slope s and the sum o were chosen for it. */
  lemma SecondPoint(x0: real, x1: real, y0: real, y1: real, o: real, s: real, t: real, q: real, c1: real)
    requires o == x0 + x1 && o != 0.0
    requires Square(x0) - Square(x1) != 0.0 && s == Over(y0 - y1, Square(x0) - Square(x1))
    requires Form(s, t, q, c1, o, x0) == y0
    ensures Form(s, t, q, c1, o, x1) == y1
  {
    hide Times, Over, Square;
    SameOffset(x0, x1, o);
    TimesOfDifference(s, Square(x0), Square(x1));
    OverTimes(y0 - y1, Square(x0) - Square(x1));
  }

  lemma TimesOfDifference(s: real, a: real, b: real)
    ensures Times(s, a - b) == Times(s, a) - Times(s, b)
  {
  }

  lemma OverTimes(a: real, b: real)
    requires b != 0.0
    ensures Times(Over(a, b), b) == a
  {
    DivideBack(a, b);
  }

  lemma SameOffset(x0: real, x1: real, o: real)
    requires o == x0 + x1 && o != 0.0
    ensures x0 - Over(Square(x0), o) == x1 - Over(Square(x1), o)
  {
    var v, w := Over(Square(x0), o), Over(Square(x1), o);
    DivideBack(Square(x0), o);
    DivideBack(Square(x1), o);
    DifferenceOfSquares(x0, x1);
    assert o * (v - w) == v * o - w * o;
    assert o * (x0 - x1) == (x0 - x1) * (x0 + x1);
    Cancel(o, v - w, x0 - x1);
  }

  lemma ThirdPoint(x2: real, y2: real, o: real, s: real, t: real, q: real, c1: real)
    requires o != 0.0 && q == x2 - Over(Square(x2), o) && t == y2 - Times(s, Square(x2))
    ensures Form(s, t, q, c1, o, x2) == y2
  {
    hide Times, Over, Square;
    TimesZero(c1, x2 - Over(Square(x2), o) - q);
  }

  lemma TimesZero(a: real, z: real)
    requires z == 0.0
    ensures Times(a, z) == 0.0
  {
  }

  /** What the formulas of ipBuild compute when no divisor is zero. */
  lemma FormulasPassThrough(x0: real, x1: real, x2: real, y0: real, y1: real, y2: real,
                            o: real, p: real, r: real, e: real, q: real, s: real, t: real, d: real, c1: real)
    requires o == x0 + x1 && p == Square(x2) && r == Square(x0) && e == r - Square(x1)
    requires o != 0.0 && e != 0.0 && d != 0.0
    requires q == x2 - Over(p, o) && s == Over(y0 - y1, e) && t == y2 - Times(s, p)
    requires d == x0 - Over(r, o) - q && c1 == Over(y0 - Times(s, r) - t, d)
    ensures ValueAt(t - Times(c1, q), c1, s - Over(c1, o), x0) == y0
    ensures ValueAt(t - Times(c1, q), c1, s - Over(c1, o), x1) == y1
    ensures ValueAt(t - Times(c1, q), c1, s - Over(c1, o), x2) == y2
  {
    hide ValueAt, Times, Over, Square, Form;
    FirstPoint(x0, y0, o, s, t, q, d, c1);
    SecondPoint(x0, x1, y0, y1, o, s, t, q, c1);
    ThirdPoint(x2, y2, o, s, t, q, c1);
    Expand(s, t, q, c1, o, x0);
    Expand(s, t, q, c1, o, x1);
    Expand(s, t, q, c1, o, x2);
  }

  /** The points that the build does not refuse. */
  ghost predicate Accepted(x: seq<real>)
    requires |x| == 3
  {
    Distinct(x) && x[0] + x[1] != 0.0
  }

  /** The build succeeds exactly on distinct points whose first two x do not cancel; its result
      passes through all three points. */
  method IpBuild(x: array<real>, y: array<real>) returns (ok: bool, c0: real, c1: real, c2: real)
    requires x.Length == y.Length == 3
    ensures ok <==> Accepted(x[..])
    ensures ok <==> x[0] != x[1] && x[0] != x[2] && x[1] != x[2] && x[0] + x[1] != 0.0
    ensures ok ==> Through(c0, c1, c2, x[..], y[..])
  {
    hide ValueAt, Times, Over, Square;
    ok, c0, c1, c2 := false, 0.0, 0.0, 0.0;
    var o, p, r := x[0] + x[1], Square(x[2]), Square(x[0]);
    var e := r - Square(x[1]);
    DifferenceOfSquares(x[0], x[1]);
    if o == 0.0 || e == 0.0 {
      return;
    }
    var q := x[2] - Over(p, o);
    var s := Over(y[0] - y[1], e);
    var t := y[2] - Times(s, p);
    var d := x[0] - Over(r, o) - q;
    LastDivisor(x[0], x[1], x[2], o, q, d);
    if d == 0.0 {
      return;
    }
    c1 := Over(y[0] - Times(s, r) - t, d);
    c0 := t - Times(c1, q);
    c2 := s - Over(c1, o);
    ok := true;
    FormulasPassThrough(x[0], x[1], x[2], y[0], y[1], y[2], o, p, r, e, q, s, t, d, c1);
  }

  /** At most one parabola passes through three points with distinct x. */
  lemma ParabolaIsUnique(
    a0: real, a1: real, a2: real, b0: real, b1: real, b2: real, x: seq<real>, y: seq<real>)
    requires |x| == |y| == 3 && Distinct(x)
    requires Through(a0, a1, a2, x, y) && Through(b0, b1, b2, x, y)
    ensures a0 == b0 && a1 == b1 && a2 == b2
  {
    assert ValueAt(a0, a1, a2, x[0]) == ValueAt(b0, b1, b2, x[0]);
    assert ValueAt(a0, a1, a2, x[1]) == ValueAt(b0, b1, b2, x[1]);
    assert ValueAt(a0, a1, a2, x[2]) == ValueAt(b0, b1, b2, x[2]);
    var d0, d1, d2 := a0 - b0, a1 - b1, a2 - b2;
    Vanishes(a0, a1, a2, b0, b1, b2, x[0]);
    Vanishes(a0, a1, a2, b0, b1, b2, x[1]);
    Vanishes(a0, a1, a2, b0, b1, b2, x[2]);
    hide ValueAt;
    SlopeBetween(d0, d1, d2, x[0], x[1]);
    SlopeBetween(d0, d1, d2, x[0], x[2]);
    assert d2 * (x[1] - x[2]) == (d1 + d2 * (x[0] + x[1])) - (d1 + d2 * (x[0] + x[2]));
    ZeroProduct(d2, x[1] - x[2]);
    assert d2 == 0.0;
    assert d2 * (x[0] + x[1]) == 0.0;
    assert d1 == 0.0;
    assert d1 * x[0] == 0.0 && d2 * (x[0] * x[0]) == 0.0;
  }

  lemma Vanishes(a0: real, a1: real, a2: real, b0: real, b1: real, b2: real, x: real)
    requires ValueAt(a0, a1, a2, x) == ValueAt(b0, b1, b2, x)
    ensures (a0 - b0) + (a1 - b1) * x + (a2 - b2) * (x * x) == 0.0
  {
  }

  lemma SlopeBetween(d0: real, d1: real, d2: real, u: real, v: real)
    requires u != v
    requires d0 + d1 * u + d2 * (u * u) == 0.0 && d0 + d1 * v + d2 * (v * v) == 0.0
    ensures d1 + d2 * (u + v) == 0.0
  {
    assert (u - v) * (d1 + d2 * (u + v)) == d1 * u - d1 * v + d2 * (u * u) - d2 * (v * v);
    ZeroProduct(u - v, d1 + d2 * (u + v));
  }

  /** Points for which the build fails: x^2 itself, at -1, 1 and 0. */
  lemma SymmetricPointsAreRefused()
    ensures var x, y := [-1.0, 1.0, 0.0], [1.0, 1.0, 0.0];
            !Accepted(x) && Distinct(x) && Through(0.0, 0.0, 1.0, x, y)
  {
  }

  /** Distinct points are refused for their order only: with the last two exchanged they are
      accepted, and the parabolas through them are the same. */
  lemma RefusedForTheirOrder(x: seq<real>, y: seq<real>)
    requires |x| == |y| == 3 && Distinct(x) && !Accepted(x)
    ensures Accepted([x[0], x[2], x[1]])
    ensures forall c0, c1, c2 ::
              Through(c0, c1, c2, x, y) <==> Through(c0, c1, c2, [x[0], x[2], x[1]], [y[0], y[2], y[1]])
  {
    hide ValueAt;
    var x', y' := [x[0], x[2], x[1]], [y[0], y[2], y[1]];
    assert x'[0] == x[0] && x'[1] == x[2] && x'[2] == x[1];
    assert y'[0] == y[0] && y'[1] == y[2] && y'[2] == y[1];
  }
}
