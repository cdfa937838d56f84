// Ranges of the index array under permutation, and how divided ranges make a tree.
module KdTreePartition {
  import opened Metric
  import opened KdTreeSpec
  import opened Sequences

  // Which side of the cut a coordinate belongs to; the two passes of a partition differ on equality.
  predicate Below(strict: bool, x: real, cutval: real) {
    if strict then x < cutval else x <= cutval
  }

  // t is s with the entries of one range permuted.
  ghost predicate OnlyPermutes(s: seq<nat>, t: seq<nat>, from: nat, to: nat) {
    && |s| == |t| && from <= to <= |s|
    && s[..from] == t[..from] && s[to..] == t[to..]
    && multiset(s[from..to]) == multiset(t[from..to])
  }

  lemma OnlyPermutesWiden(s: seq<nat>, t: seq<nat>, from: nat, to: nat, from': nat, to': nat)
    requires OnlyPermutes(s, t, from, to) && from' <= from && to <= to' <= |s|
    ensures OnlyPermutes(s, t, from', to')
  {
    InThree(s, from', from, to, to');
    InThree(t, from', from, to, to');
  }

  // A range around another one, from what is before, in and behind that one.
  lemma InThree(s: seq<nat>, from': nat, from: nat, to: nat, to': nat)
    requires from' <= from <= to <= to' <= |s|
    ensures s[from'..to'] == s[..from][from'..] + s[from..to] + s[to..][..to' - to]
    ensures s[..from'] == s[..from][..from'] && s[to'..] == s[to..][to' - to..]
  {
  }

  // Two entries exchanged.
  function Exchanged(s: seq<nat>, i: nat, j: nat): seq<nat>
    requires i < |s| && j < |s|
  {
    s[i := s[j]][j := s[i]]
  }

  lemma SwapOnlyPermutes(s: seq<nat>, i: nat, j: nat, from: nat, to: nat)
    requires from <= i < to <= |s| && from <= j < to
    ensures OnlyPermutes(s, Exchanged(s, i, j), from, to)
  {
    var t, r := Exchanged(s, i, j), s[from..to];
    assert t[from..to] == r[i - from := r[j - from]][j - from := r[i - from]];
    SwapPermutes(r, i - from, j - from);
  }

  // Where a permuted entry came from.
  lemma OriginOf(s: seq<nat>, t: seq<nat>, from: nat, to: nat, k: nat) returns (j: nat)
    requires OnlyPermutes(s, t, from, to) && from <= k < to
    ensures from <= j < to && s[j] == t[k]
  {
    SameMembers(s[from..to], t[from..to]);
    assert t[k] == t[from..to][k - from];
    assert t[k] in s[from..to];
    var i :| 0 <= i < to - from && s[from..to][i] == t[k];
    j := from + i;
  }

  lemma OnlyPermutesTransitive(s: seq<nat>, t: seq<nat>, u: seq<nat>, from: nat, to: nat)
    requires OnlyPermutes(s, t, from, to) && OnlyPermutes(t, u, from, to)
    ensures OnlyPermutes(s, u, from, to)
  {
  }

  // The entries of a range refer to points of the data.
  ghost predicate Indexes(pts: seq<Point>, v: seq<nat>, from: nat, to: nat) {
    from <= to <= |v| && forall k :: from <= k < to ==> v[k] < |pts|
  }

  // A pass over a range: the entries before `left` are below the cut, those from `right` on are not.
  ghost predicate Sides(pts: seq<Point>, v: seq<nat>, from: nat, left: nat, right: nat, to: nat,
                        d: nat, cutval: real, strict: bool)
  {
    && from <= left <= right <= to <= |v|
    && (forall k :: from <= k < left ==> Below(strict, Coord(pts, v[k], d), cutval))
    && (forall k :: right <= k < to ==> !Below(strict, Coord(pts, v[k], d), cutval))
  }

  // The entries below the cut come first in a range.
  ghost predicate Parted(pts: seq<Point>, v: seq<nat>, from: nat, mid: nat, to: nat, d: nat, cutval: real, strict: bool) {
    Sides(pts, v, from, mid, mid, to, d, cutval, strict)
  }

  lemma PassBegins(pts: seq<Point>, v: seq<nat>, from: nat, to: nat, d: nat, cutval: real, strict: bool)
    requires Indexes(pts, v, from, to)
    ensures Sides(pts, v, from, from, to, to, d, cutval, strict) && OnlyPermutes(v, v, from, to)
  {
  }

  // Exchanging two entries that are on the wrong sides takes a pass one step further at both ends.
  lemma ExchangeAdvances(pts: seq<Point>, s: seq<nat>, from: nat, left: nat, right: nat, to: nat,
                         d: nat, cutval: real, strict: bool)
    requires Sides(pts, s, from, left, right + 1, to, d, cutval, strict) && left < right
    requires !Below(strict, Coord(pts, s[left], d), cutval) && Below(strict, Coord(pts, s[right], d), cutval)
    ensures Sides(pts, Exchanged(s, left, right), from, left + 1, right, to, d, cutval, strict)
  {
    hide Below, Coord;
  }

  lemma SidesInRange(pts: seq<Point>, v: seq<nat>, from: nat, left: nat, right: nat, to: nat,
                     d: nat, cutval: real, strict: bool)
    requires Sides(pts, v, from, left, right, to, d, cutval, strict)
    ensures from <= left <= right <= to <= |v|
  {
  }

  // A pass ends when its ends meet, or at the very first entry, which is not below.
  lemma PassEnds(pts: seq<Point>, v: seq<nat>, from: nat, left: nat, right: nat, to: nat,
                 d: nat, cutval: real, strict: bool)
    requires Sides(pts, v, from, left, right, to, d, cutval, strict)
    requires left == right || (left + 1 == right && !Below(strict, Coord(pts, v[left], d), cutval))
    ensures Parted(pts, v, from, left, to, d, cutval, strict)
  {
  }

  // A range in three parts: below, at and above the cut.
  ghost predicate ThreeParts(pts: seq<Point>, v: seq<nat>, from: nat, lim1: nat, lim2: nat, to: nat, d: nat, cutval: real) {
    && from <= lim1 <= lim2 <= to <= |v|
    && (forall k :: from <= k < lim1 ==> Coord(pts, v[k], d) < cutval)
    && (forall k :: lim1 <= k < lim2 ==> Coord(pts, v[k], d) == cutval)
    && (forall k :: lim2 <= k < to ==> Coord(pts, v[k], d) > cutval)
  }

  // After a first pass, the entries at or above the cut still refer to points.
  lemma FirstPass(pts: seq<Point>, s: seq<nat>, t: seq<nat>, from: nat, lim1: nat, to: nat)
    requires OnlyPermutes(s, t, from, to) && Indexes(pts, s, from, to) && from <= lim1 <= to
    ensures Indexes(pts, t, lim1, to)
  {
    RangePermutes(pts, s, t, from, to);
  }

  // A second pass over the entries at or above the cut leaves the first pass intact.
  lemma SecondPass(pts: seq<Point>, s: seq<nat>, t: seq<nat>, u: seq<nat>,
                   from: nat, lim1: nat, lim2: nat, to: nat, d: nat, cutval: real)
    requires OnlyPermutes(s, t, from, to) && Parted(pts, t, from, lim1, to, d, cutval, true)
    requires OnlyPermutes(t, u, lim1, to) && Parted(pts, u, lim1, lim2, to, d, cutval, false)
    ensures OnlyPermutes(s, u, from, to)
    ensures ThreeParts(pts, u, from, lim1, lim2, to, d, cutval)
  {
    forall k | lim1 <= k < to ensures Coord(pts, u[k], d) >= cutval {
      var j := OriginOf(t, u, lim1, to, k);
    }
    forall k | from <= k < lim1 ensures Coord(pts, u[k], d) < cutval {
      assert u[k] == u[..lim1][k] == t[..lim1][k];
    }
    OnlyPermutesWiden(t, u, lim1, to, from, to);
    OnlyPermutesTransitive(s, t, u, from, to);
  }

  // No entry before mid is above the cut, and none from mid on is below it.
  ghost predicate Separated(pts: seq<Point>, v: seq<nat>, from: nat, mid: nat, to: nat, d: nat, cutval: real) {
    && from <= mid <= to <= |v|
    && (forall k :: from <= k < mid ==> Coord(pts, v[k], d) <= cutval)
    && (forall k :: mid <= k < to ==> cutval <= Coord(pts, v[k], d))
  }

  // The position nearest to the middle that the parts allow.
  function MiddleIndex(lim1: nat, lim2: nat, count: nat): nat {
    if lim1 > count / 2 then lim1 else if lim2 < count / 2 then lim2 else count / 2
  }

  // The position is the middle, unless points on one side of the cut reach beyond it.
  ghost predicate InTheMiddle(pts: seq<Point>, v: seq<nat>, from: nat, index: nat, count: nat, d: nat, cutval: real) {
    && from + count <= |v| && index <= count
    && (index > count / 2 ==> forall k :: from <= k < from + index ==> Coord(pts, v[k], d) < cutval)
    && (index < count / 2 ==> forall k :: from + index <= k < from + count ==> Coord(pts, v[k], d) > cutval)
  }

  // The cut is at the wanted place, or at the extreme of the points that is nearest to it.
  ghost predicate NearestCut(pts: seq<Point>, seg: seq<nat>, d: nat, middle: real, cutval: real) {
    && ((forall k :: k in seg ==> middle <= Coord(pts, k, d)) ==> IsMin(pts, seg, d, cutval))
    && ((forall k :: k in seg ==> Coord(pts, k, d) <= middle) ==> IsMax(pts, seg, d, cutval))
    && ((exists k :: k in seg && Coord(pts, k, d) < middle) && (exists k :: k in seg && middle < Coord(pts, k, d)) ==>
          cutval == middle)
  }

  lemma ClampIsNearest(pts: seq<Point>, seg: seq<nat>, d: nat, middle: real, low: real, high: real, cutval: real)
    requires IsMin(pts, seg, d, low) && IsMax(pts, seg, d, high)
    requires cutval == if middle < low then low else if middle > high then high else middle
    ensures NearestCut(pts, seg, d, middle, cutval)
  {
  }

  // With the cut between the extremes of the range, the chosen position separates two nonempty sides.
  lemma CutSeparates(pts: seq<Point>, s: seq<nat>, t: seq<nat>, from: nat, count: nat, lim1: nat, lim2: nat,
                     d: nat, low: real, high: real, cutval: real)
    requires OnlyPermutes(s, t, from, from + count) && 2 <= count && low <= cutval <= high
    requires IsMin(pts, s[from..from + count], d, low) && IsMax(pts, s[from..from + count], d, high)
    requires lim1 <= lim2 && ThreeParts(pts, t, from, from + lim1, from + lim2, from + count, d, cutval)
    ensures 0 < MiddleIndex(lim1, lim2, count) < count
    ensures Separated(pts, t, from, from + MiddleIndex(lim1, lim2, count), from + count, d, cutval)
    ensures InTheMiddle(pts, t, from, MiddleIndex(lim1, lim2, count), count, d, cutval)
  {
    hide OnlyPermutes, Coord, Attained;
    var i := ExtremeStays(pts, s, t, from, from + count, d, low);
    var j := ExtremeStays(pts, s, t, from, from + count, d, high);
  }

  // What is somewhere in a range is still somewhere in it after a permutation.
  lemma ExtremeStays(pts: seq<Point>, s: seq<nat>, t: seq<nat>, from: nat, to: nat, d: nat, x: real) returns (i: nat)
    requires OnlyPermutes(s, t, from, to) && Attained(pts, s[from..to], d, x)
    ensures from <= i < to && Coord(pts, t[i], d) == x
  {
    var a :| a in s[from..to] && Coord(pts, a, d) == x;
    SameMembers(s[from..to], t[from..to]);
    var k :| 0 <= k < to - from && t[from..to][k] == a;
    i := from + k;
  }

  lemma ExtremesOrdered(pts: seq<Point>, seg: seq<nat>, d: nat, low: real, high: real)
    requires IsMin(pts, seg, d, low) && IsMax(pts, seg, d, high)
    ensures low <= high
  {
  }

  // An interval that takes in one more coordinate.
  function Widened(i: Interval, x: real): Interval {
    Interval(if i.low > x then x else i.low, if i.high < x then x else i.high)
  }

  // The box is tight around one more point on the first n axes, and as before on the others.
  ghost predicate Extended(pts: seq<Point>, seg: seq<nat>, p: nat, before: seq<Interval>, box: seq<Interval>, n: nat) {
    && |box| == |before| >= n && TightBox(pts, seg, before)
    && TightBox(pts, seg + [p], box[..n]) && box[n..] == before[n..]
  }

  lemma ExtendEnds(pts: seq<Point>, seg: seq<nat>, p: nat, before: seq<Interval>, box: seq<Interval>)
    requires Extended(pts, seg, p, before, box, |box|)
    ensures TightBox(pts, seg + [p], box)
  {
    assert box[..|box|] == box;
  }

  lemma ExtendStep(pts: seq<Point>, seg: seq<nat>, p: nat, before: seq<Interval>, box: seq<Interval>, n: nat, x: real)
    requires Extended(pts, seg, p, before, box, n) && n < |box| && x == Coord(pts, p, n)
    ensures Extended(pts, seg, p, before, box[n := Widened(box[n], x)], n + 1)
  {
    var wider := box[n := Widened(box[n], x)];
    assert box[n] == box[n..][0] == before[n..][0] == before[n];
    assert before[n + 1..] == before[n..][1..] && wider[n + 1..] == box[n..][1..];
    assert IsMin(pts, [p], n, x) && IsMax(pts, [p], n, x) by {
      assert p in [p];
    }
    MinOfUnion(pts, seg, [p], n, before[n].low, x);
    MaxOfUnion(pts, seg, [p], n, before[n].high, x);
    hide IsMin, IsMax;
    assert forall d :: 0 <= d < n ==> wider[..n + 1][d] == box[..n][d];
  }

  // Two ranges put together make up the box of the whole.
  function JoinBoxes(a: seq<Interval>, b: seq<Interval>): (r: seq<Interval>)
    requires |a| == |b|
    ensures |r| == |a|
    ensures forall i :: 0 <= i < |r| ==> r[i] == JoinIntervals(a[i], b[i])
  {
    seq(|a|, i requires 0 <= i < |a| => JoinIntervals(a[i], b[i]))
  }

  function JoinIntervals(a: Interval, b: Interval): Interval {
    Interval(if b.low < a.low then b.low else a.low, if a.high < b.high then b.high else a.high)
  }

  lemma JoinedBoxIsTight(pts: seq<Point>, s: seq<nat>, t: seq<nat>, a: seq<Interval>, b: seq<Interval>)
    requires |a| == |b| && TightBox(pts, s, a) && TightBox(pts, t, b)
    ensures TightBox(pts, s + t, JoinBoxes(a, b))
  {
    forall d | 0 <= d < |a|
      ensures IsMin(pts, s + t, d, JoinBoxes(a, b)[d].low) && IsMax(pts, s + t, d, JoinBoxes(a, b)[d].high)
    {
      MinOfUnion(pts, s, t, d, a[d].low, b[d].low);
      MaxOfUnion(pts, s, t, d, a[d].high, b[d].high);
    }
  }

  lemma RangePermutes(pts: seq<Point>, s: seq<nat>, t: seq<nat>, from: nat, to: nat)
    requires OnlyPermutes(s, t, from, to) && Indexes(pts, s, from, to)
    ensures |t| == |s| && Indexes(pts, t, from, to)
  {
    forall k | from <= k < to ensures t[k] < |pts| {
      var j := OriginOf(s, t, from, to, k);
    }
  }

  // A permuted range still refers to points, on both sides of any position.
  lemma SidesIndexed(pts: seq<Point>, s: seq<nat>, t: seq<nat>, from: nat, mid: nat, to: nat)
    requires OnlyPermutes(s, t, from, to) || OnlyPermutes(s, t, from, mid)
    requires Indexes(pts, s, from, to) && from <= mid <= to
    ensures |s| == |t| && Indexes(pts, t, from, mid) && Indexes(pts, t, mid, to)
  {
    if OnlyPermutes(s, t, from, mid) {
      OnlyPermutesWiden(s, t, from, mid, from, to);
    }
    RangePermutes(pts, s, t, from, to);
  }

  // Permuting the left side leaves both sides on their sides.
  lemma SidePermutes(pts: seq<Point>, t: seq<nat>, u: seq<nat>, from: nat, mid: nat, to: nat, d: nat, cutval: real)
    requires OnlyPermutes(t, u, from, mid) && Separated(pts, t, from, mid, to, d, cutval)
    ensures Separated(pts, u, from, mid, to, d, cutval) && forall k :: mid <= k < to ==> u[k] == t[k]
  {
    forall k | from <= k < mid ensures Coord(pts, u[k], d) <= cutval {
      var j := OriginOf(t, u, from, mid, k);
    }
    forall k | mid <= k < to ensures u[k] == t[k] {
      assert u[k] == u[mid..][k - mid] && t[k] == t[mid..][k - mid];
    }
  }

  // The two subtrees make a tree: s is divided into t, its left part becomes u, the right part v.
  lemma {:induction false} DividedTree(pts: seq<Point>, dim: nat, leafMax: nat, s: seq<nat>, t: seq<nat>, u: seq<nat>,
                                       v: seq<nat>, from: nat, mid: nat, to: nat, cutval: real, d: nat, low: real,
                                       high: real, child1: Node, child2: Node, a: seq<Interval>, b: seq<Interval>)
    requires from < mid < to <= |s| && d < dim == |a| == |b|
    requires OnlyPermutes(s, t, from, to) && OnlyPermutes(t, u, from, mid) && OnlyPermutes(u, v, mid, to)
    requires Separated(pts, u, from, mid, to, d, cutval)
    requires IsTree(pts, dim, leafMax, child1, u, from) && child1.End() == mid
    requires IsTree(pts, dim, leafMax, child2, v, mid) && child2.End() == to
    requires TightBox(pts, u[from..mid], a) && TightBox(pts, v[mid..to], b)
    requires low == a[d].high && high == b[d].low
    ensures OnlyPermutes(s, v, from, to)
    ensures IsTree(pts, dim, leafMax, Split(d, low, high, child1, child2), v, from)
    ensures Split(d, low, high, child1, child2).End() == to
    ensures TightBox(pts, v[from..to], JoinBoxes(a, b))
  {
    var l, r := u[from..mid], v[mid..to];
    SlicesJoin(u, v, from, mid, to);
    DividedPermutes(s, t, u, v, from, mid, to);
    JoinedBoxIsTight(pts, l, r, a, b);
    LeftIsLow(pts, u, v, from, mid, to, d, cutval, low, high);
    forall k | from <= k < mid ensures v[k] == u[k] {
      assert v[k] == v[..mid][k] && u[k] == u[..mid][k];
    }
    TreeFrame(pts, dim, leafMax, child1, u, v, from);
  }

  lemma SlicesJoin(u: seq<nat>, v: seq<nat>, from: nat, mid: nat, to: nat)
    requires from <= mid <= to <= |u| && OnlyPermutes(u, v, mid, to)
    ensures v[from..mid] == u[from..mid] && v[from..to] == u[from..mid] + v[mid..to]
  {
    assert v[from..mid] == v[..mid][from..] && u[from..mid] == u[..mid][from..];
  }

  lemma DividedPermutes(s: seq<nat>, t: seq<nat>, u: seq<nat>, v: seq<nat>, from: nat, mid: nat, to: nat)
    requires from < mid < to <= |s|
    requires OnlyPermutes(s, t, from, to) && OnlyPermutes(t, u, from, mid) && OnlyPermutes(u, v, mid, to)
    ensures OnlyPermutes(s, v, from, to)
  {
    OnlyPermutesWiden(t, u, from, mid, from, to);
    OnlyPermutesWiden(u, v, mid, to, from, to);
    OnlyPermutesTransitive(s, t, u, from, to);
    OnlyPermutesTransitive(s, u, v, from, to);
  }

  lemma LeftIsLow(pts: seq<Point>, u: seq<nat>, v: seq<nat>, from: nat, mid: nat, to: nat, d: nat,
                  cutval: real, low: real, high: real)
    requires from < mid < to <= |u| && OnlyPermutes(u, v, mid, to)
    requires Separated(pts, u, from, mid, to, d, cutval)
    requires IsMax(pts, u[from..mid], d, low) && IsMin(pts, v[mid..to], d, high)
    ensures low <= cutval <= high
  {
    var k :| k in u[from..mid] && Coord(pts, k, d) == low;
    var i :| 0 <= i < mid - from && u[from..mid][i] == k;
    assert u[from + i] == k;
    var k' :| k' in v[mid..to] && Coord(pts, k', d) == high;
    var i' :| 0 <= i' < to - mid && v[mid..to][i'] == k';
    var j := OriginOf(u, v, mid, to, mid + i');
  }
}
