// What a search has established about the points it has looked at or pruned.
module KdSearchSpec {
  import opened Metric
  import opened KdTreeSpec
  import opened ResultSets

  // The squared Euclidean distance of point k to the query; 0 for what is not a point of the data.
  ghost function PointDist(pts: seq<Point>, q: Point, k: nat): (r: real)
    ensures r >= 0.0
  {
    if k < |pts| && |pts[k]| == |q| then
      DistanceIsEuclidean(q, pts[k], |q|);
      SquaredNorm(q, pts[k], |q|)
    else 0.0
  }

  // The distances of all points to the query.
  ghost function DistancesTo(pts: seq<Point>, q: Point): nat -> real {
    (k: nat) => PointDist(pts, q, k)
  }

  // The distances up to which a point may be missed when its distance is scaled by e.
  ghost function Relaxed(dist: nat -> real, e: real): nat -> real {
    (k: nat) => e * dist(k)
  }

  // The contents s are right for the points `seen`: they are the true distances of distinct points of
  // seen, and the worst distance is at most far(k) for every point k of seen that is missing.
  ghost predicate Explored(p: Policy, s: seq<Item>, dist: nat -> real, far: nat -> real, seen: set<nat>) {
    && Consistent(p, s) && Distinct(s)
    && (forall x :: x in s ==> x.index in seen && x.dist == dist(x.index))
    && (forall k :: k in seen && k !in Indices(s) ==> WorstOf(p, s) <= far(k))
  }

  // The per-axis bounds hold for every point of a range.
  ghost predicate BoundedBelow(bounds: seq<real>, pts: seq<Point>, q: Point, seg: seq<nat>) {
    && |bounds| == |q|
    && (forall d :: 0 <= d < |q| ==> 0.0 <= bounds[d])
    && forall k, d :: k in seg && 0 <= d < |q| ==> bounds[d] <= AxisDist(q[d], Coord(pts, k, d))
  }

  ghost function Members(seg: seq<nat>): set<nat> {
    set k | k in seg
  }

  // A bound relaxed by the factor of the search.
  function Scale(m: real, f: real): real {
    m * f
  }

  lemma ScaleUp(m: real, d: real, f: real, e: real)
    requires 0.0 <= m <= d && f <= e && 1.0 <= e
    ensures m * f <= e * d && d <= e * d
  {
    assert m * f <= m * e;
    assert m * e <= d * e;
  }

  // One offered point joins what has been seen.
  lemma OfferExplores(p: Policy, s: seq<Item>, dist: nat -> real, far: nat -> real, seen: set<nat>, k: nat)
    requires Explored(p, s, dist, far, seen)
    requires forall j :: dist(j) <= far(j)
    requires k !in seen && dist(k) < p.limit
    ensures k !in Indices(s)
    ensures Explored(p, Offer(p, s, Item(dist(k), k)), dist, far, seen + {k})
  {
    NotYetListed(s, seen, k);
    OfferStep(p, s, Item(dist(k), k));
    GuaranteeExplores(p, s, dist, far, seen, k, Offer(p, s, Item(dist(k), k)));
  }

  lemma GuaranteeExplores(p: Policy, s: seq<Item>, dist: nat -> real, far: nat -> real, seen: set<nat>,
                          k: nat, r: seq<Item>)
    requires Explored(p, s, dist, far, seen)
    requires forall j :: dist(j) <= far(j)
    requires OfferGuarantee(p, s, Item(dist(k), k), r)
    ensures Explored(p, r, dist, far, seen + {k})
  {
    forall j | j in seen + {k} && j !in Indices(r) ensures WorstOf(p, r) <= far(j) {
      DroppedIsFar(p, s, Item(dist(k), k), r, j);
    }
  }

  lemma NotYetListed(s: seq<Item>, seen: set<nat>, k: nat)
    requires forall x :: x in s ==> x.index in seen
    requires k !in seen
    ensures k !in Indices(s)
  {
    forall i | 0 <= i < |s| ensures s[i].index in seen {
      assert s[i] in s;
    }
  }

  // A listed or offered point that is no longer listed was dropped for being far.
  lemma DroppedIsFar(p: Policy, s: seq<Item>, x: Item, r: seq<Item>, j: nat)
    requires OfferGuarantee(p, s, x, r) && j !in Indices(r)
    ensures j == x.index ==> WorstOf(p, r) <= x.dist
    ensures forall y :: y in s && y.index == j ==> WorstOf(p, r) <= y.dist
    ensures j !in Indices(s) || exists y :: y in s && y.index == j
  {
    assert forall y :: y in r ==> y.index in Indices(r);
    if j in Indices(s) {
      var i :| 0 <= i < |s| && s[i].index == j;
      assert s[i] in s;
    }
  }

  // Points whose bound m, scaled by f, reaches the worst distance can be passed over.
  lemma SkipExplores(p: Policy, s: seq<Item>, pts: seq<Point>, q: Point, e: real, seen: set<nat>, seg: seq<nat>,
                     f: real, m: real)
    requires Explored(p, s, DistancesTo(pts, q), Relaxed(DistancesTo(pts, q), e), seen) && 1.0 <= e && f <= e
    requires AllBeyond(pts, q, seg, m) && WorstOf(p, s) <= Scale(m, f)
    ensures Explored(p, s, DistancesTo(pts, q), Relaxed(DistancesTo(pts, q), e), seen + Members(seg))
  {
    AllFar(DistancesTo(pts, q), e, seg, f, m, WorstOf(p, s));
  }

  lemma AllFar(dist: nat -> real, e: real, seg: seq<nat>, f: real, m: real, worst: real)
    requires 1.0 <= e && f <= e && 0.0 <= m && worst <= Scale(m, f)
    requires forall k :: k in seg ==> m <= dist(k)
    ensures forall k :: k in seg ==> worst <= Relaxed(dist, e)(k)
  {
    forall k | k in seg ensures worst <= e * dist(k) {
      ScaleUp(m, dist(k), f, e);
    }
  }

  lemma RelaxedAbove(dist: nat -> real, e: real)
    requires 1.0 <= e && forall k :: dist(k) >= 0.0
    ensures forall k :: dist(k) <= Relaxed(dist, e)(k)
  {
    forall k: nat ensures dist(k) <= e * dist(k) {
      ScaleUp(dist(k), dist(k), 1.0, e);
    }
  }

  // Valid bounds add up to a bound of the distance of every point of the range.
  lemma BoundsBoundDistance(bounds: seq<real>, pts: seq<Point>, q: Point, seg: seq<nat>)
    requires Cloud(pts, |q|) && IndicesInto(seg, pts) && BoundedBelow(bounds, pts, q, seg)
    ensures 0.0 <= SumTo(bounds, |q|)
    ensures forall k :: k in seg ==> SumTo(bounds, |q|) <= PointDist(pts, q, k)
  {
    SumNonNegative(bounds, |q|);
    forall k | k in seg ensures SumTo(bounds, |q|) <= PointDist(pts, q, k) {
      assert forall d :: 0 <= d < |q| ==> Coord(pts, k, d) == pts[k][d];
      SumBoundsDistance(bounds, q, pts[k], |q|);
      DistanceIsEuclidean(q, pts[k], |q|);
    }
  }

  // All points of a range are at least m away.
  ghost predicate AllBeyond(pts: seq<Point>, q: Point, seg: seq<nat>, m: real) {
    0.0 <= m && forall k :: k in seg ==> m <= PointDist(pts, q, k)
  }

  // The query is on one side of a cut, and all points of a range are on the other.
  ghost predicate Opposite(pts: seq<Point>, q: Point, seg: seq<nat>, d: nat, cut: real)
    requires d < |q|
  {
    (q[d] <= cut && forall k :: k in seg ==> cut <= Coord(pts, k, d))
    || (cut <= q[d] && forall k :: k in seg ==> Coord(pts, k, d) <= cut)
  }

  // Crossing the cut: on the far side, the distance to its nearest coordinate bounds that axis.
  lemma FarSideBounded(bounds: seq<real>, pts: seq<Point>, q: Point, seg: seq<nat>, d: nat, cut: real)
    requires BoundedBelow(bounds, pts, q, seg) && d < |q| && Opposite(pts, q, seg, d, cut)
    ensures BoundedBelow(bounds[d := AxisDist(q[d], cut)], pts, q, seg)
  {
    forall k | k in seg ensures AxisDist(q[d], cut) <= AxisDist(q[d], Coord(pts, k, d)) {
      AxisDistMonotone(q[d], cut, Coord(pts, k, d));
    }
  }

  // The far side of a cut: its bounds, their sum, and what the sum bounds.
  lemma FarFacts(bounds: seq<real>, pts: seq<Point>, q: Point, seg: seq<nat>, d: nat, cut: real, x: real, m: real)
    requires Cloud(pts, |q|) && IndicesInto(seg, pts)
    requires BoundedBelow(bounds, pts, q, seg) && d < |q| == |bounds| && Opposite(pts, q, seg, d, cut)
    requires x == AxisDist(q[d], cut) && m == SumTo(bounds, |q|) + x - bounds[d]
    ensures BoundedBelow(bounds[d := x], pts, q, seg) && m == SumTo(bounds[d := x], |q|) && AllBeyond(pts, q, seg, m)
  {
    FarSideBounded(bounds, pts, q, seg, d, cut);
    hide Opposite, Coord, AxisDist;
    SumUpdate(bounds, |q|, d, x);
    BoundsBoundDistance(bounds[d := x], pts, q, seg);
  }

  // A bound for a range is a bound for each part.
  lemma BoundedParts(bounds: seq<real>, pts: seq<Point>, q: Point, seg: seq<nat>, part: seq<nat>)
    requires BoundedBelow(bounds, pts, q, seg) && forall k :: k in part ==> k in seg
    ensures BoundedBelow(bounds, pts, q, part)
  {
    forall k, d | k in part && 0 <= d < |q| ensures bounds[d] <= AxisDist(q[d], Coord(pts, k, d)) {
      assert k in seg;
    }
  }

  lemma OfferLowersWorst(p: Policy, s: seq<Item>, x: Item)
    requires Consistent(p, s) && x.dist < p.limit && Distinct(s) && x.index !in Indices(s)
    ensures WorstOf(p, Offer(p, s, x)) <= WorstOf(p, s)
  {
    OfferStep(p, s, x);
  }

  // The distance of a coordinate to an interval.
  function BoxDist(x: real, i: Interval): (r: real)
    ensures r >= 0.0
  {
    if x < i.low then AxisDist(x, i.low) else if x > i.high then AxisDist(x, i.high) else 0.0
  }

  // b is the distance of a coordinate to the nearest one of an interval.
  ghost predicate NearestInside(b: real, x: real, i: Interval) {
    && (exists y :: i.low <= y <= i.high && b == AxisDist(x, y))
    && (forall y :: i.low <= y <= i.high ==> b <= AxisDist(x, y))
  }

  lemma BoxDistIsNearest(x: real, i: Interval)
    requires i.low <= i.high
    ensures NearestInside(BoxDist(x, i), x, i)
  {
    var n := if x < i.low then i.low else if x > i.high then i.high else x;
    assert BoxDist(x, i) == AxisDist(x, n);
    forall y | i.low <= y <= i.high
      ensures BoxDist(x, i) <= AxisDist(x, y)
    {
      AxisDistMonotone(x, n, y);
    }
  }

  // The first n bounds are the distances to the box, the others are 0.
  ghost predicate BoxedUpTo(bounds: seq<real>, q: Point, box: seq<Interval>, n: nat) {
    && n <= |bounds| == |q| == |box|
    && (forall d :: 0 <= d < n ==> bounds[d] == BoxDist(q[d], box[d]))
    && (forall d :: n <= d < |q| ==> bounds[d] == 0.0)
  }

  lemma NothingBoxed(bounds: seq<real>, q: Point, box: seq<Interval>)
    requires |bounds| == |q| == |box| && forall d :: 0 <= d < |q| ==> bounds[d] == 0.0
    ensures BoxedUpTo(bounds, q, box, 0) && SumTo(bounds, 0) == 0.0
  {
  }

  lemma BoxedStep(bounds: seq<real>, q: Point, box: seq<Interval>, n: nat)
    requires BoxedUpTo(bounds, q, box, n) && n < |q|
    ensures bounds[n] == 0.0
    ensures BoxDist(q[n], box[n]) == if q[n] < box[n].low then AxisDist(q[n], box[n].low)
                                     else if q[n] > box[n].high then AxisDist(q[n], box[n].high) else 0.0
    ensures BoxedUpTo(bounds[n := BoxDist(q[n], box[n])], q, box, n + 1)
    ensures SumTo(bounds[n := BoxDist(q[n], box[n])], n + 1) == SumTo(bounds, n) + BoxDist(q[n], box[n])
  {
    SumUpdate(bounds, n, n, BoxDist(q[n], box[n]));
  }

  // On every axis.
  ghost predicate AllNearest(bounds: seq<real>, q: Point, box: seq<Interval>) {
    |bounds| == |q| == |box| && forall d :: 0 <= d < |q| ==> NearestInside(bounds[d], q[d], box[d])
  }

  lemma BoxedAreNearest(bounds: seq<real>, q: Point, box: seq<Interval>)
    requires BoxedUpTo(bounds, q, box, |q|) && forall d :: 0 <= d < |q| ==> box[d].low <= box[d].high
    ensures AllNearest(bounds, q, box)
  {
    hide NearestInside, BoxDist;
    forall d | 0 <= d < |q|
      ensures NearestInside(bounds[d], q[d], box[d])
    {
      BoxDistIsNearest(q[d], box[d]);
    }
  }

  // The distances to the box around a range bound the distances to its points.
  lemma BoxBounds(bounds: seq<real>, pts: seq<Point>, q: Point, seg: seq<nat>, box: seq<Interval>)
    requires TightBox(pts, seg, box) && BoxedUpTo(bounds, q, box, |q|)
    ensures BoundedBelow(bounds, pts, q, seg)
  {
    forall k, d | k in seg && 0 <= d < |q|
      ensures bounds[d] <= AxisDist(q[d], Coord(pts, k, d))
    {
      assert box[d].low <= Coord(pts, k, d) <= box[d].high;
      if q[d] < box[d].low {
        AxisDistMonotone(q[d], box[d].low, Coord(pts, k, d));
      } else if q[d] > box[d].high {
        AxisDistMonotone(q[d], box[d].high, Coord(pts, k, d));
      }
    }
  }
}
