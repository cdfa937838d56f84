// The answers of a search against brute force: every point inserted into one sorted list.
module KdRanking {
  import opened FiniteSets
  import opened Metric
  import opened ResultSets
  import opened KdSearchSpec

  // All n points by increasing distance.
  ghost function BruteForce(dist: nat -> real, n: nat): (s: seq<Item>)
    ensures |s| == n
  {
    if n == 0 then [] else Insert(BruteForce(dist, n - 1), Item(dist(n - 1), n - 1))
  }

  // An exact ordering of all points.
  ghost predicate Ranking(s: seq<Item>, dist: nat -> real, n: nat) {
    && |s| == n && Sorted(s) && Distinct(s)
    && forall i :: 0 <= i < |s| ==> s[i].index < n && s[i].dist == dist(s[i].index)
  }

  lemma {:induction false} BruteForceRanks(dist: nat -> real, n: nat)
    ensures Ranking(BruteForce(dist, n), dist, n)
  {
    hide Insert;
    if n > 0 {
      var s, x := BruteForce(dist, n - 1), Item(dist(n - 1), n - 1);
      BruteForceRanks(dist, n - 1);
      InsertSorted(s, x);
      InsertDistinct(s, x);
      var p := InsertAt(s, x);
    }
  }

  // ----- Counting

  lemma {:induction false} DistinctCount(s: seq<Item>)
    requires Distinct(s)
    ensures |Indices(s)| == |s|
  {
    if s != [] {
      var t := s[..|s| - 1];
      DistinctCount(t);
      assert Indices(s) == Indices(t) + {s[|s| - 1].index};
      assert s[|s| - 1].index !in Indices(t);
    }
  }

  // i + 1 distinct entries cannot all be among i distinct entries: one of them is elsewhere.
  lemma Pigeonhole(s: seq<Item>, t: seq<Item>, i: nat) returns (j: nat)
    requires Distinct(s) && Distinct(t) && i < |s| && i <= |t|
    ensures j <= i && s[j].index !in Indices(t[..i])
  {
    DistinctCount(s[..i + 1]);
    DistinctCount(t[..i]);
    if forall j :: 0 <= j <= i ==> s[j].index in Indices(t[..i]) {
      forall k | k in Indices(s[..i + 1]) ensures k in Indices(t[..i]) {
        var m :| 0 <= m < i + 1 && s[..i + 1][m].index == k;
        assert s[m].index == k;
      }
      SubsetSize(Indices(s[..i + 1]), Indices(t[..i]));
      assert false;
    }
    j :| 0 <= j <= i && s[j].index !in Indices(t[..i]);
  }

  lemma PrefixIndices(s: seq<Item>, m: nat)
    requires m <= |s|
    ensures forall a :: 0 <= a < m ==> s[a].index in Indices(s[..m])
  {
    forall a | 0 <= a < m ensures s[a].index in Indices(s[..m]) {
      assert s[..m][a] == s[a];
    }
  }

  // ----- Nearest neighbours

  // The contents of a finished search are listed points, hence at most n.
  lemma ExploredItems(p: Policy, s: seq<Item>, dist: nat -> real, far: nat -> real, n: nat)
    requires Explored(p, s, dist, far, AllIndices(n))
    ensures |s| <= n && Indices(s) <= AllIndices(n)
    ensures forall i :: 0 <= i < |s| ==> s[i].index < n && s[i].dist == dist(s[i].index)
  {
    assert forall i :: 0 <= i < |s| ==> s[i] in s;
    DistinctCount(s);
    SubsetSize(Indices(s), AllIndices(n));
  }

  // No answer beats brute force.
  lemma RankBelow(s: seq<Item>, dist: nat -> real, n: nat, b: seq<Item>, i: nat)
    requires Sorted(s) && Distinct(s) && Ranking(b, dist, n) && i < |s|
    requires forall i :: 0 <= i < |s| ==> s[i].index < n && s[i].dist == dist(s[i].index)
    requires |s| <= n
    ensures b[i].dist <= s[i].dist
  {
    var j := Pigeonhole(s, b, i);
    var k := RankOf(b, dist, n, s[j].index);
    PrefixIndices(b, i);
  }

  // Every point has a rank.
  lemma RankOf(b: seq<Item>, dist: nat -> real, n: nat, k: nat) returns (i: nat)
    requires Ranking(b, dist, n) && k < n
    ensures i < n && b[i].index == k
  {
    DistinctCount(b);
    if k !in Indices(b) {
      SubsetSize(Indices(b), AllIndices(n) - {k});
      assert false;
    }
    i :| 0 <= i < |b| && b[i].index == k;
  }

  // If s were short of the points up to rank i, one of them would be missing and the worst distance near.
  lemma MissingIsFar(p: Policy, s: seq<Item>, dist: nat -> real, far: nat -> real, n: nat, b: seq<Item>, i: nat, m: nat)
    returns (j: nat)
    requires Explored(p, s, dist, far, AllIndices(n)) && Ranking(b, dist, n)
    requires i < n && m <= i && m <= |s|
    requires forall a :: m <= a < |s| ==> s[a].dist > b[i].dist
    ensures j <= i && b[j].dist <= b[i].dist && b[j].dist == dist(b[j].index)
    ensures WorstOf(p, s) <= far(b[j].index)
  {
    hide Explored, Ranking, Distinct, Indices, WorstOf;
    var t := s[..m];
    RankedDistinct(p, s, dist, far, n, b, m);
    j := PigeonholeShort(b, t, i);
    RankedBefore(b, dist, n, j, i);
    FarFromRank(s, dist, n, b, i, j, m, p, far);
    MissingPoint(p, s, dist, far, AllIndices(n), b[j].index);
  }

  lemma MissingPoint(p: Policy, s: seq<Item>, dist: nat -> real, far: nat -> real, seen: set<nat>, k: nat)
    requires Explored(p, s, dist, far, seen) && k in seen && k !in Indices(s)
    ensures WorstOf(p, s) <= far(k)
  {
  }

  lemma RankedDistinct(p: Policy, s: seq<Item>, dist: nat -> real, far: nat -> real, n: nat, b: seq<Item>, m: nat)
    requires Explored(p, s, dist, far, AllIndices(n)) && Ranking(b, dist, n) && m <= |s|
    ensures Distinct(b) && Distinct(s[..m]) && |b| == n
  {
  }

  lemma RankedBefore(b: seq<Item>, dist: nat -> real, n: nat, j: nat, i: nat)
    requires Ranking(b, dist, n) && j <= i < n
    ensures b[j].dist <= b[i].dist && b[j].dist == dist(b[j].index) && b[j].index < n
  {
  }

  // A point as near as rank i that is not among the first m entries is not listed at all.
  lemma FarFromRank(s: seq<Item>, dist: nat -> real, n: nat, b: seq<Item>, i: nat, j: nat, m: nat, p: Policy,
                    far: nat -> real)
    requires Explored(p, s, dist, far, AllIndices(n)) && Ranking(b, dist, n) && j <= i < n && m <= |s|
    requires forall a :: m <= a < |s| ==> s[a].dist > b[i].dist
    requires b[j].index !in Indices(s[..m])
    ensures b[j].index !in Indices(s) && b[j].index in AllIndices(n)
  {
    RankedBefore(b, dist, n, j, i);
    ExploredItems(p, s, dist, far, n);
    PrefixIndices(s, m);
    hide Explored, Ranking;
  }

  lemma PigeonholeShort(s: seq<Item>, t: seq<Item>, i: nat) returns (j: nat)
    requires Distinct(s) && Distinct(t) && |t| <= i < |s|
    ensures j <= i && s[j].index !in Indices(t)
  {
    var m := |t|;
    assert t[..m] == t;
    j := Pigeonhole(s, t, m);
  }

  // The allowance for missing a point grows with its distance.
  ghost predicate Allowance(dist: nat -> real, far: nat -> real) {
    && (forall k :: dist(k) <= far(k))
    && (forall j, k :: dist(j) <= dist(k) ==> far(j) <= far(k))
  }

  lemma RelaxedAllowance(dist: nat -> real, e: real)
    requires 1.0 <= e && forall k :: dist(k) >= 0.0
    ensures Allowance(dist, Relaxed(dist, e))
  {
    RelaxedAbove(dist, e);
    forall j: nat, k: nat | dist(j) <= dist(k) ensures Relaxed(dist, e)(j) <= Relaxed(dist, e)(k) {
      RelaxedMonotone(dist, e, j, k);
    }
  }

  lemma RelaxedMonotone(dist: nat -> real, e: real, j: nat, k: nat)
    requires 1.0 <= e && 0.0 <= dist(j) <= dist(k)
    ensures Relaxed(dist, e)(j) <= Relaxed(dist, e)(k)
  {
    var x, y := dist(j), dist(k);
    ScaleUp(x, y, e, e);
    assert x * e == e * x;
  }

  // A k-nearest search against any exact ordering b of all points, for every rank i: the i-th answer lies
  // between the true i-th distance and its allowance, and the rank is answered if it fits and the
  // allowance is below the limit.
  lemma NearestAgainstRanking(capacity: nat, limit: real, s: seq<Item>, dist: nat -> real, far: nat -> real,
                              n: nat, b: seq<Item>, i: nat)
    requires Explored(Nearest(capacity, limit), s, dist, far, AllIndices(n)) && Allowance(dist, far)
    requires Ranking(b, dist, n) && i < n
    ensures |s| <= n
    ensures i < |s| ==> b[i].dist <= s[i].dist <= far(b[i].index)
    ensures i < capacity && far(b[i].index) < limit ==> i < |s|
  {
    ExploredItems(Nearest(capacity, limit), s, dist, far, n);
    if i < |s| {
      RankBelow(s, dist, n, b, i);
      RankAbove(capacity, limit, s, dist, far, n, b, i);
    } else if i < capacity && far(b[i].index) < limit {
      var j := MissingIsFar(Nearest(capacity, limit), s, dist, far, n, b, i, |s|);
      assert false;
    }
  }

  lemma RankAbove(capacity: nat, limit: real, s: seq<Item>, dist: nat -> real, far: nat -> real,
                  n: nat, b: seq<Item>, i: nat)
    requires Explored(Nearest(capacity, limit), s, dist, far, AllIndices(n)) && Allowance(dist, far)
    requires Ranking(b, dist, n) && i < n && i < |s|
    ensures s[i].dist <= far(b[i].index)
  {
    NearestContents(capacity, limit, s, dist, far, AllIndices(n), i);
    hide Explored, Ranking, WorstOf, Sorted;
    if s[i].dist > b[i].dist {
      SortedFrom(s, i, b[i].dist);
      var j := MissingIsFar(Nearest(capacity, limit), s, dist, far, n, b, i, i);
      assert far(b[j].index) <= far(b[i].index) by {
        RankedDistance(b, dist, n, i);
      }
    } else {
      RankedDistance(b, dist, n, i);
    }
  }

  // A bounded result is sorted, and the worst distance is no better than any of its entries.
  lemma NearestContents(capacity: nat, limit: real, s: seq<Item>, dist: nat -> real, far: nat -> real, seen: set<nat>, i: nat)
    requires Explored(Nearest(capacity, limit), s, dist, far, seen) && i < |s|
    ensures Sorted(s) && s[i].dist <= WorstOf(Nearest(capacity, limit), s)
  {
  }

  lemma SortedFrom(s: seq<Item>, i: nat, x: real)
    requires Sorted(s) && i < |s| && s[i].dist > x
    ensures forall j :: i <= j < |s| ==> s[j].dist > x
  {
  }

  lemma RankedDistance(b: seq<Item>, dist: nat -> real, n: nat, i: nat)
    requires Ranking(b, dist, n) && i < n
    ensures b[i].dist == dist(b[i].index)
  {
  }

  // With a relative error e - 1, the i-th answer is at most e times the true i-th distance.
  lemma RelaxedNearest(capacity: nat, limit: real, s: seq<Item>, dist: nat -> real, e: real, n: nat,
                       b: seq<Item>, i: nat)
    requires Explored(Nearest(capacity, limit), s, dist, Relaxed(dist, e), AllIndices(n)) && 1.0 <= e
    requires (forall k :: dist(k) >= 0.0) && Ranking(b, dist, n) && i < n
    ensures i < |s| ==> b[i].dist <= s[i].dist <= Relaxed(dist, e)(b[i].index)
    ensures i < capacity && Relaxed(dist, e)(b[i].index) < limit ==> i < |s|
  {
    RelaxedAllowance(dist, e);
    NearestAgainstRanking(capacity, limit, s, dist, Relaxed(dist, e), n, b, i);
  }

  // An exact search returns the head of brute force: the i-th answer has the true i-th distance, and
  // rank i is answered if and only if it fits and its distance is below the limit of the result set.
  lemma ExactNearest(capacity: nat, limit: real, s: seq<Item>, dist: nat -> real, n: nat)
    requires Explored(Nearest(capacity, limit), s, dist, Relaxed(dist, 1.0), AllIndices(n))
    requires forall k :: dist(k) >= 0.0
    ensures var b := BruteForce(dist, n);
      && |s| <= n
      && (forall i :: 0 <= i < |s| ==> s[i].dist == b[i].dist)
      && (forall i :: 0 <= i < n ==> (i < |s| <==> i < capacity && b[i].dist < limit))
  {
    var b := BruteForce(dist, n);
    BruteForceRanks(dist, n);
    ExploredItems(Nearest(capacity, limit), s, dist, Relaxed(dist, 1.0), n);
    forall i | 0 <= i < n
      ensures i < |s| ==> s[i].dist == b[i].dist
      ensures i < |s| <==> i < capacity && b[i].dist < limit
    {
      ExactRank(capacity, limit, s, dist, n, b, i);
    }
  }

  lemma ExactRank(capacity: nat, limit: real, s: seq<Item>, dist: nat -> real, n: nat, b: seq<Item>, i: nat)
    requires Explored(Nearest(capacity, limit), s, dist, Relaxed(dist, 1.0), AllIndices(n))
    requires forall k :: dist(k) >= 0.0
    requires Ranking(b, dist, n) && i < n
    ensures i < |s| ==> s[i].dist == b[i].dist
    ensures i < |s| <==> i < capacity && b[i].dist < limit
  {
    RelaxedAllowance(dist, 1.0);
    NearestAgainstRanking(capacity, limit, s, dist, Relaxed(dist, 1.0), n, b, i);
    assert Relaxed(dist, 1.0)(b[i].index) == b[i].dist;
  }

  // What an exact answer says about its entries and its ranks.
  lemma ExactAnswer(capacity: nat, limit: real, s: seq<Item>, dist: nat -> real, n: nat)
    requires Explored(Nearest(capacity, limit), s, dist, Relaxed(dist, 1.0), AllIndices(n))
    requires forall k :: dist(k) >= 0.0
    ensures |s| <= capacity && |s| <= n && Distinct(s)
    ensures forall i :: 0 <= i < |s| ==> s[i].index < n && s[i].dist == dist(s[i].index)
    ensures forall i :: 0 <= i < |s| ==> s[i].dist == BruteForce(dist, n)[i].dist
    ensures forall i :: 0 <= i < n ==> (i < |s| <==> i < capacity && BruteForce(dist, n)[i].dist < limit)
  {
    ExactNearest(capacity, limit, s, dist, n);
    ExploredItems(Nearest(capacity, limit), s, dist, Relaxed(dist, 1.0), n);
  }

  // When every distance is below the limit, exactly min(capacity, n) points are returned.
  lemma ExactNearestCount(capacity: nat, limit: real, s: seq<Item>, dist: nat -> real, n: nat)
    requires Explored(Nearest(capacity, limit), s, dist, Relaxed(dist, 1.0), AllIndices(n))
    requires forall k :: dist(k) >= 0.0
    requires forall k: nat :: k < n ==> dist(k) < limit
    ensures |s| == if capacity < n then capacity else n
  {
    ExactNearest(capacity, limit, s, dist, n);
    BruteForceRanks(dist, n);
    if |s| < n {
      assert BruteForce(dist, n)[|s|].dist < limit;
    }
  }

  // ----- Radius search

  // A radius search lists exactly the points within the radius, each once.
  lemma ExactRadius(radius: real, s: seq<Item>, dist: nat -> real, n: nat)
    requires Explored(Within(radius), s, dist, Relaxed(dist, 1.0), AllIndices(n))
    ensures Distinct(s)
    ensures forall k: nat :: k < n ==> (k in Indices(s) <==> dist(k) < radius)
    ensures forall i :: 0 <= i < |s| ==> s[i].index < n && s[i].dist == dist(s[i].index)
  {
    ExploredItems(Within(radius), s, dist, Relaxed(dist, 1.0), n);
    forall k: nat | k < n ensures k in Indices(s) <==> dist(k) < radius {
      assert k in AllIndices(n);
      assert 1.0 * dist(k) == dist(k);
    }
  }

  // With a relative error, a point is missed only if e times its distance reaches the radius.
  lemma RelaxedRadius(radius: real, s: seq<Item>, dist: nat -> real, e: real, n: nat)
    requires Explored(Within(radius), s, dist, Relaxed(dist, e), AllIndices(n))
    ensures forall k: nat :: k < n && Relaxed(dist, e)(k) < radius ==> k in Indices(s)
  {
    forall k: nat | k < n && Relaxed(dist, e)(k) < radius ensures k in Indices(s) {
      assert k in AllIndices(n);
    }
  }

  // What a radius search says about its entries, in whatever order.
  lemma RadiusAnswer(radius: real, s: seq<Item>, t: seq<Item>, dist: nat -> real, e: real, n: nat)
    requires Explored(Within(radius), s, dist, Relaxed(dist, e), AllIndices(n))
    requires multiset(t) == multiset(s) && Indices(t) == Indices(s)
    ensures Distinct(s)
    ensures forall i :: 0 <= i < |t| ==> t[i].index < n && t[i].dist == dist(t[i].index) < radius
    ensures e == 1.0 ==> forall k: nat :: k < n ==> (k in Indices(t) <==> dist(k) < radius)
    ensures forall k: nat :: k < n && Relaxed(dist, e)(k) < radius ==> k in Indices(t)
  {
    if e == 1.0 {
      ExactRadius(radius, s, dist, n);
    }
    RelaxedRadius(radius, s, dist, e, n);
    ExploredItems(Within(radius), s, dist, Relaxed(dist, e), n);
    hide Relaxed, Indices, AllIndices;
    forall i | 0 <= i < |t|
      ensures t[i].index < n && t[i].dist == dist(t[i].index) < radius
    {
      assert t[i] in multiset(s);
      var j :| 0 <= j < |s| && s[j] == t[i];
    }
  }

  // Sorting: some permutation by increasing distance.
  method SortByDistance(s: seq<Item>) returns (t: seq<Item>)
    requires Distinct(s)
    ensures Sorted(t) && Distinct(t) && multiset(t) == multiset(s) && Indices(t) == Indices(s)
  {
    hide Insert;
    t := [];
    for i := 0 to |s|
      invariant Sorted(t) && Distinct(t) && multiset(t) == multiset(s[..i]) && Indices(t) == Indices(s[..i])
    {
      assert s[..i + 1] == s[..i] + [s[i]];
      PutInPlace(t, s[..i], s[i]);
      t := Insert(t, s[i]);
    }
    assert s[..|s|] == s;
  }

  lemma PutInPlace(t: seq<Item>, s: seq<Item>, x: Item)
    requires Sorted(t) && Distinct(t) && multiset(t) == multiset(s) && Indices(t) == Indices(s)
    requires Distinct(s + [x])
    ensures Sorted(Insert(t, x)) && Distinct(Insert(t, x))
    ensures multiset(Insert(t, x)) == multiset(s + [x]) && Indices(Insert(t, x)) == Indices(s + [x])
  {
    hide Insert;
    InsertSorted(t, x);
    assert x.index !in Indices(s) by {
      assert (s + [x])[|s|] == x && forall i :: 0 <= i < |s| ==> (s + [x])[i] == s[i];
    }
    InsertDistinct(t, x);
    InsertMembers(t, x);
    SameIndices(Insert(t, x), s + [x]);
  }

  lemma SameIndices(s: seq<Item>, t: seq<Item>)
    requires multiset(s) == multiset(t)
    ensures Indices(s) == Indices(t)
  {
    IndicesWithin(s, t);
    IndicesWithin(t, s);
  }

  lemma IndicesWithin(s: seq<Item>, t: seq<Item>)
    requires multiset(s) == multiset(t)
    ensures Indices(s) <= Indices(t)
  {
    forall k | k in Indices(s)
      ensures k in Indices(t)
    {
      var i :| 0 <= i < |s| && s[i].index == k;
      assert s[i] in multiset(t);
    }
  }

  // A sorted radius answer is the head of brute force, up to the radius.
  lemma SortedRadius(radius: real, s: seq<Item>, t: seq<Item>, dist: nat -> real, n: nat)
    requires Explored(Within(radius), s, dist, Relaxed(dist, 1.0), AllIndices(n)) && forall k :: dist(k) >= 0.0
    requires Sorted(t) && Distinct(t) && multiset(t) == multiset(s) && Indices(t) == Indices(s)
    ensures |t| <= n
    ensures forall i :: 0 <= i < |t| ==> t[i].dist == BruteForce(dist, n)[i].dist
    ensures forall i :: 0 <= i < n ==> (i < |t| <==> BruteForce(dist, n)[i].dist < radius)
  {
    ExploredItems(Within(radius), s, dist, Relaxed(dist, 1.0), n);
    SortedExplores(radius, s, t, dist, n);
    ExactNearest(n + 1, radius, t, dist, n);
  }

  lemma SortedExplores(radius: real, s: seq<Item>, t: seq<Item>, dist: nat -> real, n: nat)
    requires Explored(Within(radius), s, dist, Relaxed(dist, 1.0), AllIndices(n)) && |s| <= n
    requires Sorted(t) && Distinct(t) && multiset(t) == multiset(s) && Indices(t) == Indices(s)
    ensures Explored(Nearest(n + 1, radius), t, dist, Relaxed(dist, 1.0), AllIndices(n))
  {
    hide AllIndices, Relaxed, Indices, Sorted, Distinct;
    assert |t| == |multiset(t)| == |s|;
    forall x | x in t
      ensures x in s
    {
      assert x in multiset(t);
    }
    forall i | 0 <= i < |t|
      ensures t[i].dist < radius
    {
      assert t[i] in s;
    }
  }

  // The buffers of a k-nearest answer: the true distances of distinct points, rank by rank those of brute force. A rank
  // is answered if and only if there is room for it and its distance is below the limit.
  ghost predicate NearestAnswer(pts: seq<Point>, q: Point, capacity: nat, limit: real, dists: seq<real>, indices: seq<nat>) {
    var b := BruteForce(DistancesTo(pts, q), |pts|);
    && |dists| == |indices| && |dists| <= capacity && |dists| <= |pts|
    && (forall i :: 0 <= i < |dists| ==> dists[i] == b[i].dist)
    && (forall i :: 0 <= i < |pts| ==> (i < |dists| <==> i < capacity && b[i].dist < limit))
    && (forall i :: 0 <= i < |dists| ==> indices[i] < |pts| && dists[i] == PointDist(pts, q, indices[i]))
    && (forall i, j :: 0 <= i < j < |indices| ==> indices[i] != indices[j])
  }

  // The buffers hold the entries of a result.
  ghost predicate Buffered(s: seq<Item>, dists: seq<real>, indices: seq<nat>) {
    |dists| == |indices| == |s| && forall i :: 0 <= i < |s| ==> dists[i] == s[i].dist && indices[i] == s[i].index
  }

  lemma BufferedAnswer(pts: seq<Point>, q: Point, capacity: nat, limit: real, s: seq<Item>,
                       dists: seq<real>, indices: seq<nat>)
    requires Explored(Nearest(capacity, limit), s, DistancesTo(pts, q), Relaxed(DistancesTo(pts, q), 1.0), AllIndices(|pts|))
    requires Buffered(s, dists, indices)
    ensures NearestAnswer(pts, q, capacity, limit, dists, indices)
  {
    hide Explored, Relaxed, BruteForce, PointDist, AllIndices;
    ExactAnswer(capacity, limit, s, DistancesTo(pts, q), |pts|);
  }
}
