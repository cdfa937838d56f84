// What a k-d tree over a point cloud is: extremes, boxes, nodes and the regions they stand for.
module KdTreeSpec {
  import opened Metric
  import opened Sequences

  datatype Interval = Interval(low: real, high: real)

  // A node covers a contiguous range of the index array. Only leaves store it.
  datatype Node =
    | Leaf(left: nat, right: nat)
    | Split(divfeat: nat, divlow: real, divhigh: real, child1: Node, child2: Node)
  {
    // One past the last position that the node covers.
    function End(): nat {
      match this
      case Leaf(_, right) => right
      case Split(_, _, _, _, child2) => child2.End()
    }
  }

  ghost predicate Cloud(pts: seq<Point>, dim: nat) {
    forall k :: 0 <= k < |pts| ==> |pts[k]| == dim
  }

  ghost predicate IndicesInto(seg: seq<nat>, pts: seq<Point>) {
    forall k :: k in seg ==> k < |pts|
  }

  // dataset_get; 0 outside the data, so that it is total.
  function Coord(pts: seq<Point>, k: nat, d: nat): real {
    if k < |pts| && d < |pts[k]| then pts[k][d] else 0.0
  }

  // Some point of a range has this coordinate.
  ghost predicate Attained(pts: seq<Point>, seg: seq<nat>, d: nat, x: real) {
    exists k :: k in seg && Coord(pts, k, d) == x
  }

  ghost predicate IsMin(pts: seq<Point>, seg: seq<nat>, d: nat, x: real) {
    && Attained(pts, seg, d, x)
    && (forall k :: k in seg ==> x <= Coord(pts, k, d))
  }

  ghost predicate IsMax(pts: seq<Point>, seg: seq<nat>, d: nat, x: real) {
    && Attained(pts, seg, d, x)
    && (forall k :: k in seg ==> Coord(pts, k, d) <= x)
  }

  // The smallest box around the points of a range.
  ghost predicate TightBox(pts: seq<Point>, seg: seq<nat>, box: seq<Interval>) {
    forall d :: 0 <= d < |box| ==> IsMin(pts, seg, d, box[d].low) && IsMax(pts, seg, d, box[d].high)
  }

  // node is a k-d tree over the positions start .. node.End() of the index array v: the leaves tile the
  // range with nonempty pieces of at most `leafMax` points, and every split keeps the largest left and
  // the smallest right coordinate on its axis, in this order.
  ghost predicate IsTree(pts: seq<Point>, dim: nat, leafMax: nat, node: Node, v: seq<nat>, start: nat)
    decreases node
  {
    && start < node.End() <= |v|
    && match node
       case Leaf(left, right) => left == start && right - left <= leafMax
       case Split(divfeat, divlow, divhigh, child1, child2) =>
         && divfeat < dim && divlow <= divhigh
         && IsTree(pts, dim, leafMax, child1, v, start)
         && IsTree(pts, dim, leafMax, child2, v, child1.End())
         && IsMax(pts, v[start..child1.End()], divfeat, divlow)
         && IsMin(pts, v[child1.End()..node.End()], divfeat, divhigh)
  }

  // A tree only depends on its own range.
  lemma {:induction false} TreeFrame(pts: seq<Point>, dim: nat, leafMax: nat, node: Node,
                                     v: seq<nat>, w: seq<nat>, start: nat)
    requires IsTree(pts, dim, leafMax, node, v, start)
    requires node.End() <= |w| && forall k :: start <= k < node.End() ==> w[k] == v[k]
    ensures IsTree(pts, dim, leafMax, node, w, start)
    decreases node
  {
    if node.Split? {
      var mid, end := node.child1.End(), node.End();
      TreeFrame(pts, dim, leafMax, node.child1, v, w, start);
      TreeFrame(pts, dim, leafMax, node.child2, v, w, mid);
      assert w[start..mid] == v[start..mid] && w[mid..end] == v[mid..end];
      hide IsMax, IsMin;
    }
  }

  // ----- Permutations of a range

  lemma SwapPermutes(s: seq<nat>, i: nat, j: nat)
    requires i < |s| && j < |s|
    ensures multiset(s[i := s[j]][j := s[i]]) == multiset(s)
  {
  }

  // A permutation of 0 .. n-1 lists every index once.
  function Iota(n: nat): (s: seq<nat>)
    ensures |s| == n && forall i :: 0 <= i < n ==> s[i] == i
  {
    seq(n, i requires 0 <= i < n => i)
  }

  ghost predicate IsPermutation(s: seq<nat>) {
    && (forall i, j :: 0 <= i < j < |s| ==> s[i] != s[j])
    && (forall k: nat :: k in s <==> k < |s|)
  }

  lemma {:induction false} IotaCount(n: nat, k: nat)
    ensures multiset(Iota(n))[k] == if k < n then 1 else 0
  {
    if n > 0 {
      IotaCount(n - 1, k);
      assert Iota(n) == Iota(n - 1) + [n - 1];
    }
  }

  lemma PermutationOfIota(s: seq<nat>, n: nat)
    requires multiset(s) == multiset(Iota(n))
    ensures |s| == n && IsPermutation(s)
  {
    SameMembers(s, Iota(n));
    forall i, j | 0 <= i < j < |s| ensures s[i] != s[j] {
      if s[i] == s[j] {
        CountTwice(s, i, j);
        IotaCount(n, s[i]);
        assert false;
      }
    }
    forall k: nat ensures k in s <==> k < n {
      if k < n {
        assert Iota(n)[k] == k;
      }
    }
  }

  // ----- Joining two ranges

  lemma MinOfUnion(pts: seq<Point>, s: seq<nat>, t: seq<nat>, d: nat, x: real, y: real)
    requires IsMin(pts, s, d, x) && IsMin(pts, t, d, y)
    ensures IsMin(pts, s + t, d, if y < x then y else x)
  {
    var k :| k in (if y < x then t else s) && Coord(pts, k, d) == if y < x then y else x;
    assert k in s + t;
  }

  lemma MaxOfUnion(pts: seq<Point>, s: seq<nat>, t: seq<nat>, d: nat, x: real, y: real)
    requires IsMax(pts, s, d, x) && IsMax(pts, t, d, y)
    ensures IsMax(pts, s + t, d, if x < y then y else x)
  {
    var k :| k in (if x < y then t else s) && Coord(pts, k, d) == if x < y then y else x;
    assert k in s + t;
  }
}
