// The distance of the k-d tree: the squared Euclidean metric, accumulated axis by axis.
module Metric {

  type Point = seq<real>

  // The contribution of one axis.
  function AxisDist(a: real, b: real): (r: real)
    ensures r >= 0.0
  {
    (a - b) * (a - b)
  }

  // A coordinate is at least as far from a as the bound b that lies between them.
  lemma AxisDistMonotone(a: real, b: real, c: real)
    requires a <= b <= c || a >= b >= c
    ensures AxisDist(a, b) <= AxisDist(a, c)
  {
    var x, y := if a <= b then b - a else a - b, if a <= b then c - b else b - c;
    assert AxisDist(a, b) == x * x;
    assert AxisDist(a, c) == (x + y) * (x + y) == x * x + 2.0 * (x * y) + y * y;
    assert x * y >= 0.0 && y * y >= 0.0;
  }

  // The distance over the first n axes, in the order in which the source adds them up.
  function Distance(q: Point, p: Point, n: nat): (r: real)
    requires n <= |q| && n <= |p|
    ensures r >= 0.0
  {
    if n == 0 then 0.0 else Distance(q, p, n - 1) + AxisDist(q[n - 1], p[n - 1])
  }

  // The sum of the first n entries.
  function SumTo(s: seq<real>, n: nat): real
    requires n <= |s|
  {
    if n == 0 then 0.0 else SumTo(s, n - 1) + s[n - 1]
  }

  // Per-axis lower bounds add up to a lower bound of the distance.
  lemma {:induction false} SumBoundsDistance(lower: seq<real>, q: Point, p: Point, n: nat)
    requires n <= |lower| && n <= |q| && n <= |p|
    requires forall d :: 0 <= d < n ==> lower[d] <= AxisDist(q[d], p[d])
    ensures SumTo(lower, n) <= Distance(q, p, n)
  {
    if n > 0 {
      SumBoundsDistance(lower, q, p, n - 1);
    }
  }

  // Replacing one entry moves the sum by the difference.
  lemma {:induction false} SumUpdate(s: seq<real>, n: nat, d: nat, x: real)
    requires n <= |s| && d < |s|
    ensures SumTo(s[d := x], n) == SumTo(s, n) + (if d < n then x - s[d] else 0.0)
  {
    if n > 0 {
      SumUpdate(s, n - 1, d, x);
    }
  }

  lemma {:induction false} SumNonNegative(s: seq<real>, n: nat)
    requires n <= |s|
    requires forall d :: 0 <= d < n ==> 0.0 <= s[d]
    ensures 0.0 <= SumTo(s, n)
  {
    if n > 0 {
      SumNonNegative(s, n - 1);
    }
  }

  // ----- What the distance is

  // The scalar product over the first n axes.
  ghost function Dot(a: Point, b: Point, n: nat): real
    requires n <= |a| && n <= |b|
  {
    if n == 0 then 0.0 else Dot(a, b, n - 1) + a[n - 1] * b[n - 1]
  }

  // The squared Euclidean norm of q - p, from scalar products.
  ghost function SquaredNorm(q: Point, p: Point, n: nat): real
    requires n <= |q| && n <= |p|
  {
    Dot(q, q, n) - 2.0 * Dot(q, p, n) + Dot(p, p, n)
  }

  lemma AxisExpands(a: real, b: real)
    ensures AxisDist(a, b) == a * a - 2.0 * (a * b) + b * b
  {
  }

  // The distance is the squared Euclidean one.
  lemma {:induction false} DistanceIsEuclidean(q: Point, p: Point, n: nat)
    requires n <= |q| && n <= |p|
    ensures Distance(q, p, n) == SquaredNorm(q, p, n)
  {
    if n > 0 {
      DistanceIsEuclidean(q, p, n - 1);
      AxisExpands(q[n - 1], p[n - 1]);
    }
  }

  // kdtree_distance: the loop over the axes.
  method KdtreeDistance(q: Point, p: Point, size: nat) returns (s: real)
    requires size <= |q| && size <= |p|
    ensures s == Distance(q, p, size) == SquaredNorm(q, p, size)
  {
    hide SquaredNorm;
    DistanceIsEuclidean(q, p, size);
    s := 0.0;
    for i := 0 to size
      invariant s == Distance(q, p, i)
    {
      var d := q[i] - p[i];
      s := s + d * d;
    }
  }
}
