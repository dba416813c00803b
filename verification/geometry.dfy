/** Node positions and the centroid arithmetic used when pasted nodes are re-centred. */
module Geometry {

  /** A position on the canvas; coordinates are exact reals (no rounding is modelled). */
  datatype Point = Point(x: real, y: real) {
    function Add(p: Point): Point {
      Point(x + p.x, y + p.y)
    }

    function Sub(p: Point): Point {
      Point(x - p.x, y - p.y)
    }

    function Scale(k: real): Point {
      Point(k * x, k * y)
    }

    function Div(d: real): Point
      requires d != 0.0
    {
      Point(x / d, y / d)
    }
  }

  const Origin := Point(0.0, 0.0)

  /** The sum of the points, accumulated from the first to the last as a loop does. */
  function Sum(ps: seq<Point>): Point {
    if ps == [] then Origin else Sum(ps[..|ps| - 1]).Add(ps[|ps| - 1])
  }

  /** The average position of a non-empty sequence of points. */
  function Centroid(ps: seq<Point>): Point
    requires ps != []
  {
    Sum(ps).Div(|ps| as real)
  }

  /** Every point moved by the same offset. */
  function Translate(ps: seq<Point>, d: Point): (r: seq<Point>)
    ensures |r| == |ps|
    ensures forall i | 0 <= i < |ps| :: r[i] == ps[i].Add(d)
  {
    seq(|ps|, i requires 0 <= i < |ps| => ps[i].Add(d))
  }

  /** Moving n points by d moves their sum by n times d. */
  lemma {:induction false} SumTranslate(ps: seq<Point>, d: Point)
    ensures Sum(Translate(ps, d)) == Sum(ps).Add(d.Scale(|ps| as real))
  {
    if ps != [] {
      var n := |ps|;
      var init := ps[..n - 1];
      var last := ps[n - 1];
      SumTranslate(init, d);
      var moved := Translate(ps, d);
      assert moved[..n - 1] == Translate(init, d);
      var s := Sum(init);
      var k := (n - 1) as real;
      assert Sum(moved) == s.Add(d.Scale(k)).Add(last.Add(d));
      assert Sum(ps) == s.Add(last);
      ScaleStep(k, d.x);
      ScaleStep(k, d.y);
    }
  }

  lemma ScaleStep(k: real, a: real)
    ensures k * a + a == (k + 1.0) * a
  {
  }

  lemma CentreStep(s: real, t: real, n: real)
    requires n != 0.0
    ensures (s + n * (t - s / n)) / n == t
  {
    assert n * (s / n) == s;
    assert n * (t - s / n) == n * t - n * (s / n);
    assert s + n * (t - s / n) == n * t;
    assert (n * t) / n == t;
  }

  /**
   * Translating points by (target - centroid) puts their centroid on the target, and keeps
   * the offset between any two of them.
   */
  lemma RecentredCentroid(ps: seq<Point>, target: Point)
    requires ps != []
    ensures Centroid(Translate(ps, target.Sub(Centroid(ps)))) == target
    ensures forall i, j | 0 <= i < |ps| && 0 <= j < |ps| ::
      Translate(ps, target.Sub(Centroid(ps)))[i].Sub(Translate(ps, target.Sub(Centroid(ps)))[j]) == ps[i].Sub(ps[j])
  {
    var n := |ps| as real;
    var c := Centroid(ps);
    var d := target.Sub(c);
    SumTranslate(ps, d);
    var s := Sum(ps);
    assert c == Point(s.x / n, s.y / n);
    CentreStep(s.x, target.x, n);
    CentreStep(s.y, target.y, n);
  }
}
