// The subtrees that a search descends into, and what a split passes on to them.
module KdSubtrees {
  import opened Metric
  import opened KdTreeSpec
  import opened KdSearchSpec

  // The entries of the index array that a subtree covers.
  ghost function Entries(v: seq<nat>, node: Node, start: nat): seq<nat> {
    if start <= node.End() <= |v| then v[start..node.End()] else []
  }

  // The points of a subtree.
  ghost function PointsOf(v: seq<nat>, node: Node, start: nat): set<nat> {
    Members(Entries(v, node, start))
  }

  // No entry of a range occurs twice.
  ghost predicate NoRepeats(v: seq<nat>, from: nat, to: nat) {
    to <= |v| && forall i, j :: from <= i < j < to ==> v[i] != v[j]
  }

  // The node is a subtree of the index that starts at position `start`.
  ghost predicate Subtree(pts: seq<Point>, dim: nat, leafMax: nat, v: seq<nat>, node: Node, start: nat) {
    IsTree(pts, dim, leafMax, node, v, start) && IndicesInto(Entries(v, node, start), pts) &&
    NoRepeats(v, start, node.End())
  }

  lemma LeafEntries(pts: seq<Point>, dim: nat, leafMax: nat, v: seq<nat>, left: nat, right: nat, start: nat)
    requires Subtree(pts, dim, leafMax, v, Leaf(left, right), start)
    ensures left <= right <= |v| && Entries(v, Leaf(left, right), start) == v[left..right]
    ensures IndicesInto(v[left..right], pts) && NoRepeats(v, left, right)
  {
  }

  // A permutation of all points, as the entries of the root.
  lemma RootEntries(pts: seq<Point>, dim: nat, leafMax: nat, v: seq<nat>, root: Node)
    requires IsTree(pts, dim, leafMax, root, v, 0) && IsPermutation(v) && root.End() == |v| == |pts|
    ensures Entries(v, root, 0) == v && Subtree(pts, dim, leafMax, v, root, 0)
  {
    hide IsTree;
    assert v[0..|v|] == v;
  }

  // The entries of a split are those of its two subtrees.
  lemma SplitEntries(pts: seq<Point>, dim: nat, leafMax: nat, v: seq<nat>, node: Node, start: nat)
    requires node.Split? && IsTree(pts, dim, leafMax, node, v, start)
    ensures start < node.child1.End() < node.End() <= |v|
    ensures var mid := node.child1.End();
      && IsTree(pts, dim, leafMax, node.child1, v, start) && IsTree(pts, dim, leafMax, node.child2, v, mid)
      && Entries(v, node, start) == Entries(v, node.child1, start) + Entries(v, node.child2, mid)
  {
    hide IsTree, Node.End;
    TreeParts(pts, dim, leafMax, v, node, start);
    var mid, end := node.child1.End(), node.End();
    assert v[start..end] == v[start..mid] + v[mid..end];
  }

  lemma TreeParts(pts: seq<Point>, dim: nat, leafMax: nat, v: seq<nat>, node: Node, start: nat)
    requires node.Split? && IsTree(pts, dim, leafMax, node, v, start)
    ensures start < node.child1.End() < node.child2.End() == node.End() <= |v|
    ensures IsTree(pts, dim, leafMax, node.child1, v, start)
    ensures IsTree(pts, dim, leafMax, node.child2, v, node.child1.End())
  {
    hide IsMin, IsMax;
  }

  lemma SplitIndices(a: seq<nat>, b: seq<nat>, pts: seq<Point>)
    requires IndicesInto(a + b, pts)
    ensures IndicesInto(a, pts) && IndicesInto(b, pts)
  {
    assert forall k :: k in a ==> k in a + b;
    assert forall k :: k in b ==> k in a + b;
  }

  // The two sides have no point in common.
  lemma SplitApart(v: seq<nat>, start: nat, mid: nat, end: nat)
    requires start <= mid <= end && NoRepeats(v, start, end)
    ensures Members(v[start..mid]) !! Members(v[mid..end])
  {
    var a, b := v[start..mid], v[mid..end];
    forall i, j | 0 <= i < |a| && 0 <= j < |b|
      ensures a[i] != b[j]
    {
      assert a[i] == v[start + i] && b[j] == v[mid + j];
    }
  }

  // A query before the cut has the right subtree behind it, and the other way round.
  lemma SplitCuts(pts: seq<Point>, dim: nat, leafMax: nat, v: seq<nat>, node: Node, start: nat, q: Point)
    requires node.Split? && IsTree(pts, dim, leafMax, node, v, start) && |q| == dim
    ensures node.divfeat < dim && node.divlow <= node.divhigh
    ensures q[node.divfeat] <= node.divhigh ==>
              Opposite(pts, q, Entries(v, node.child2, node.child1.End()), node.divfeat, node.divhigh)
    ensures q[node.divfeat] >= node.divlow ==>
              Opposite(pts, q, Entries(v, node.child1, start), node.divfeat, node.divlow)
  {
    hide Attained, Coord;
  }

  lemma TreeOf(pts: seq<Point>, dim: nat, leafMax: nat, v: seq<nat>, node: Node, start: nat)
    requires Subtree(pts, dim, leafMax, v, node, start)
    ensures IsTree(pts, dim, leafMax, node, v, start)
  {
  }

  // What a split passes on to its two subtrees.
  lemma SplitFacts(pts: seq<Point>, dim: nat, leafMax: nat, v: seq<nat>, node: Node, start: nat, bounds: seq<real>, q: Point)
    requires node.Split? && Subtree(pts, dim, leafMax, v, node, start)
    requires BoundedBelow(bounds, pts, q, Entries(v, node, start))
    ensures var mid := node.child1.End();
      && Subtree(pts, dim, leafMax, v, node.child1, start) && Subtree(pts, dim, leafMax, v, node.child2, mid)
      && BoundedBelow(bounds, pts, q, Entries(v, node.child1, start))
      && BoundedBelow(bounds, pts, q, Entries(v, node.child2, mid))
      && PointsOf(v, node.child1, start) !! PointsOf(v, node.child2, mid)
      && PointsOf(v, node, start) == PointsOf(v, node.child1, start) + PointsOf(v, node.child2, mid)
  {
    var mid := node.child1.End();
    SplitEntries(pts, dim, leafMax, v, node, start);
    SplitApart(v, start, mid, node.End());
    hide IsTree, IndicesInto, BoundedBelow;
    var a, b := Entries(v, node.child1, start), Entries(v, node.child2, mid);
    SplitIndices(a, b, pts);
    BoundedParts(bounds, pts, q, a + b, a);
    BoundedParts(bounds, pts, q, a + b, b);
  }

  // The next entry of a leaf has not been seen yet.
  lemma NextMember(v: seq<nat>, left: nat, i: nat, right: nat, seen: set<nat>)
    requires left <= i < right && NoRepeats(v, left, right)
    requires Members(v[left..right]) !! seen
    ensures v[i] in v[left..right] && v[i] !in seen + Members(v[left..i])
    ensures seen + Members(v[left..i]) + {v[i]} == seen + Members(v[left..i + 1])
  {
    assert v[left..i + 1] == v[left..i] + [v[i]];
    assert v[left..right][i - left] == v[i];
    assert v[i] in Members(v[left..right]);
  }
}
