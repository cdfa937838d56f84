// The k-d tree index: building by in-place partitioning, searching by pruned descent.
module KdTreeIndex {
  import opened FiniteSets
  import opened Metric
  import opened KdTreeSpec
  import opened Options
  import opened KdTreePartition
  import opened KdSearchSpec
  import opened KdSubtrees
  import opened KdRanking
  import opened ResultSets

  datatype Result<T> = Success(value: T) | Failure(error: Error)

  datatype Error = NotBuilt

  class KDTreeIndex {
    const pts: seq<Point>
    const dim: nat
    const leafMaxSize: nat
    var vind: array<nat>
    var root: Option<Node>
    var rootBBox: array<Interval>

    ghost predicate Configured() {
      Cloud(pts, dim) && 0 < dim && 0 < leafMaxSize
    }

    // A range of the index array that refers to points of the data.
    ghost predicate Range(from: nat, to: nat)
      reads this, vind
    {
      from < to && Indexes(pts, vind[..], from, to)
    }

    // If there is a tree, it covers all points and the root box is their box.
    ghost predicate Built()
      reads this, vind, rootBBox
    {
      root.Some? ==>
        && 0 < |pts| == vind.Length == root.value.End()
        && IsPermutation(vind[..])
        && IsTree(pts, dim, leafMaxSize, root.value, vind[..], 0)
        && rootBBox.Length == dim && TightBox(pts, vind[..], rootBBox[..])
    }

    constructor (pts: seq<Point>, dim: nat, leafMaxSize: nat)
      ensures this.pts == pts && this.dim == dim && this.leafMaxSize == leafMaxSize
      ensures Built() && root.None? && fresh(vind) && fresh(rootBBox) && vind.Length == |pts|
    {
      this.pts, this.dim, this.leafMaxSize := pts, dim, leafMaxSize;
      vind := new nat[|pts|](i => i);
      rootBBox := new Interval[dim](_ => Interval(0.0, 0.0));
      root := None;
    }

    // ----- Building

    // buildIndex: starts again from the identity order and divides all points.
    method BuildIndex()
      requires Configured() && vind.Length == |pts|
      modifies this`root, this`rootBBox, vind
      ensures vind == old(vind) && Built() && (root.Some? <==> |pts| > 0)
      ensures multiset(vind[..]) == multiset(Iota(|pts|))
    {
      hide IsTree, TightBox, Coord, IsMin, IsMax;
      for i := 0 to vind.Length
        invariant forall k :: 0 <= k < i ==> vind[k] == k
      {
        vind[i] := i;
      }
      root := None;
      ghost var s := vind[..];
      assert s == Iota(|pts|);
      if |pts| == 0 {
        return;
      }
      var bbox := new Interval[dim](_ => Interval(0.0, 0.0));
      FitBox(0, |pts|, bbox);
      var node := DivideTree(0, |pts|, bbox);
      ghost var v := vind[..];
      assert s[0..|pts|] == s && v[0..|pts|] == v;
      PermutationOfIota(v, |pts|);
      root, rootBBox := Some(node), bbox;
      assert vind[..] == v;
    }

    function DatasetGet(idx: nat, d: nat): (x: real)
      requires Configured() && idx < |pts| && d < dim
      ensures x == Coord(pts, idx, d)
    {
      pts[idx][d]
    }

    // ----- planeSplit

    // Exchanges two entries that are on the wrong sides.
    method Exchange(i: nat, j: nat, cutfeat: nat, cutval: real, strict: bool, ghost from: nat, ghost to: nat)
      requires Sides(pts, vind[..], from, i, j + 1, to, cutfeat, cutval, strict) && i < j
      requires !Below(strict, Coord(pts, vind[i], cutfeat), cutval) && Below(strict, Coord(pts, vind[j], cutfeat), cutval)
      modifies vind
      ensures Sides(pts, vind[..], from, i + 1, j, to, cutfeat, cutval, strict)
      ensures OnlyPermutes(old(vind[..]), vind[..], from, to)
    {
      ghost var s := vind[..];
      ExchangeAdvances(pts, s, from, i, j, to, cutfeat, cutval, strict);
      SwapOnlyPermutes(s, i, j, from, to);
      hide OnlyPermutes, Sides, Below, Coord;
      vind[i], vind[j] := vind[j], vind[i];
      assert vind[..] == Exchanged(s, i, j);
    }

    // Skips what is already on its side: both inner loops of a pass.
    method Advance(off: nat, cutfeat: nat, cutval: real, strict: bool, left0: nat, right0: nat,
                   ghost from: nat, ghost to: nat)
      returns (left: nat, right: nat)
      requires Configured() && cutfeat < dim && Indexes(pts, vind[..], from, to)
      requires Sides(pts, vind[..], from, off + left0, off + right0 + 1, to, cutfeat, cutval, strict)
      ensures Sides(pts, vind[..], from, off + left, off + right + 1, to, cutfeat, cutval, strict)
      ensures left0 <= left && right <= right0
      ensures left <= right ==> !Below(strict, Coord(pts, vind[off + left], cutfeat), cutval)
      ensures left <= right && right != 0 ==>
        left < right && Below(strict, Coord(pts, vind[off + right], cutfeat), cutval)
    {
      hide Below, Coord;
      left, right := left0, right0;
      while left <= right && Below(strict, DatasetGet(vind[off + left], cutfeat), cutval)
        invariant left0 <= left
        invariant Sides(pts, vind[..], from, off + left, off + right + 1, to, cutfeat, cutval, strict)
      {
        left := left + 1;
      }
      while right != 0 && left <= right && !Below(strict, DatasetGet(vind[off + right], cutfeat), cutval)
        invariant right <= right0
        invariant left <= right ==> !Below(strict, Coord(pts, vind[off + left], cutfeat), cutval)
        invariant Sides(pts, vind[..], from, off + left, off + right + 1, to, cutfeat, cutval, strict)
        decreases right
      {
        right := right - 1;
      }
    }

    // One pass of planeSplit over ind[start..count): the entries below the cut move to the front.
    method SplitPass(off: nat, count: nat, cutfeat: nat, cutval: real, strict: bool, start: nat)
      returns (lim: nat)
      requires Configured() && cutfeat < dim && 0 < count && Indexes(pts, vind[..], off + start, off + count)
      modifies vind
      ensures start <= lim <= count
      ensures Parted(pts, vind[..], off + start, off + lim, off + count, cutfeat, cutval, strict)
      ensures OnlyPermutes(old(vind[..]), vind[..], off + start, off + count)
    {
      hide Coord, Below, OnlyPermutes, Sides, Indexes, Parted, Configured;
      ghost var s, from, to := vind[..], off + start, off + count;
      PassBegins(pts, s, from, to, cutfeat, cutval, strict);
      var left: nat, right: nat := start, count - 1;
      while true
        invariant start <= left <= right + 1 && right < count
        invariant Sides(pts, vind[..], from, off + left, off + right + 1, to, cutfeat, cutval, strict)
        invariant OnlyPermutes(s, vind[..], from, to)
        decreases right + 1 - left
      {
        ghost var t := vind[..];
        RangePermutes(pts, s, t, from, to);
        left, right := Advance(off, cutfeat, cutval, strict, left, right, from, to);
        SidesInRange(pts, t, from, off + left, off + right + 1, to, cutfeat, cutval, strict);
        if left > right || right == 0 {
          break;
        }
        Exchange(off + left, off + right, cutfeat, cutval, strict, from, to);
        OnlyPermutesTransitive(s, t, vind[..], from, to);
        left := left + 1;
        right := right - 1;
      }
      PassEnds(pts, vind[..], from, off + left, off + right + 1, to, cutfeat, cutval, strict);
      lim := left;
    }

    // Permutes a range into the parts below, at and above the cut.
    method PlaneSplit(off: nat, count: nat, cutfeat: nat, cutval: real) returns (lim1: nat, lim2: nat)
      requires Configured() && cutfeat < dim && Range(off, off + count)
      modifies vind
      ensures lim1 <= lim2 <= count
      ensures ThreeParts(pts, vind[..], off, off + lim1, off + lim2, off + count, cutfeat, cutval)
      ensures OnlyPermutes(old(vind[..]), vind[..], off, off + count)
    {
      hide Configured, Parted, ThreeParts, OnlyPermutes, Indexes;
      ghost var s := vind[..];
      lim1 := SplitPass(off, count, cutfeat, cutval, true, 0);
      ghost var t := vind[..];
      FirstPass(pts, s, t, off, off + lim1, off + count);
      lim2 := SplitPass(off, count, cutfeat, cutval, false, lim1);
      SecondPass(pts, s, t, vind[..], off, off + lim1, off + lim2, off + count, cutfeat, cutval);
    }

    method ComputeMinMax(off: nat, count: nat, element: nat) returns (minElem: real, maxElem: real)
      requires Configured() && element < dim && Range(off, off + count)
      ensures IsMin(pts, vind[..][off..off + count], element, minElem)
      ensures IsMax(pts, vind[..][off..off + count], element, maxElem)
    {
      minElem := DatasetGet(vind[off], element);
      maxElem := minElem;
      assert vind[off..off + 1] == [vind[off]];
      for i := 1 to count
        invariant IsMin(pts, vind[off..off + i], element, minElem)
        invariant IsMax(pts, vind[off..off + i], element, maxElem)
      {
        var val := DatasetGet(vind[off + i], element);
        ghost var k := vind[off + i];
        assert vind[off..off + i + 1] == vind[off..off + i] + [k];
        MinOfUnion(pts, vind[off..off + i], [k], element, minElem, val);
        MaxOfUnion(pts, vind[off..off + i], [k], element, maxElem, val);
        if val < minElem {
          minElem := val;
        }
        if val > maxElem {
          maxElem := val;
        }
      }
    }

    // Chooses the axis of the cut: among the widest axes of the box, the one with the largest spread.
    method ChooseAxis(off: nat, count: nat, bbox: array<Interval>) returns (cutfeat: nat)
      requires Configured() && bbox.Length == dim && Range(off, off + count)
      ensures cutfeat < dim
    {
      var maxSpan := bbox[0].high - bbox[0].low;
      for i := 1 to dim {
        var span := bbox[i].high - bbox[i].low;
        if span > maxSpan {
          maxSpan := span;
        }
      }
      var maxSpread := -1.0;
      cutfeat := 0;
      for i := 0 to dim
        invariant cutfeat < dim
      {
        var span := bbox[i].high - bbox[i].low;
        if span > (1.0 - 0.00001) * maxSpan {
          var minElem, maxElem := ComputeMinMax(off, count, i);
          if maxElem - minElem > maxSpread {
            cutfeat := i;
            maxSpread := maxElem - minElem;
          }
        }
      }
    }

    // Splits a range near its middle by a plane that has points on both sides.
    method MiddleSplit(off: nat, count: nat, bbox: array<Interval>)
      returns (index: nat, cutfeat: nat, cutval: real)
      requires Configured() && bbox.Length == dim && 2 <= count && Range(off, off + count)
      modifies vind
      ensures 0 < index < count && cutfeat < dim
      ensures OnlyPermutes(old(vind[..]), vind[..], off, off + count)
      ensures Separated(pts, vind[..], off, off + index, off + count, cutfeat, cutval)
      ensures InTheMiddle(pts, vind[..], off, index, count, cutfeat, cutval)
      ensures NearestCut(pts, old(vind[..])[off..off + count], cutfeat, (bbox[cutfeat].low + bbox[cutfeat].high) / 2.0, cutval)
    {
      hide Configured, IsMin, IsMax, OnlyPermutes, Separated, ThreeParts, Indexes, InTheMiddle, NearestCut;
      ghost var s := vind[..];
      cutfeat := ChooseAxis(off, count, bbox);
      ghost var low, high;
      cutval, low, high := ChooseCut(off, count, cutfeat, (bbox[cutfeat].low + bbox[cutfeat].high) / 2.0);
      var lim1, lim2 := PlaneSplit(off, count, cutfeat, cutval);
      CutSeparates(pts, s, vind[..], off, count, lim1, lim2, cutfeat, low, high, cutval);
      if lim1 > count / 2 {
        index := lim1;
      } else if lim2 < count / 2 {
        index := lim2;
      } else {
        index := count / 2;
      }
    }

    // The cut value: the wanted one, moved into the range of the coordinates.
    method ChooseCut(off: nat, count: nat, cutfeat: nat, splitVal: real) returns (cutval: real, ghost low: real, ghost high: real)
      requires Configured() && cutfeat < dim && 2 <= count && Range(off, off + count)
      ensures off + count <= vind.Length && low <= cutval <= high
      ensures IsMin(pts, vind[..][off..off + count], cutfeat, low) && IsMax(pts, vind[..][off..off + count], cutfeat, high)
      ensures NearestCut(pts, vind[..][off..off + count], cutfeat, splitVal, cutval)
    {
      InRange(off, off + count);
      hide Configured, IsMin, IsMax, Indexes, NearestCut;
      var minElem, maxElem := ComputeMinMax(off, count, cutfeat);
      ExtremesOrdered(pts, vind[..][off..off + count], cutfeat, minElem, maxElem);
      cutval := if splitVal < minElem then minElem else if splitVal > maxElem then maxElem else splitVal;
      ClampIsNearest(pts, vind[..][off..off + count], cutfeat, splitVal, minElem, maxElem, cutval);
      low, high := minElem, maxElem;
    }

    lemma InRange(from: nat, to: nat)
      requires Range(from, to)
      ensures from < to <= vind.Length
    {
    }

    // The loops that fit a box to the points vind[left..right).
    method FitBox(left: nat, right: nat, bbox: array<Interval>)
      requires Configured() && bbox.Length == dim && Range(left, right)
      modifies bbox
      ensures TightBox(pts, vind[..][left..right], bbox[..])
    {
      for i := 0 to dim
        invariant forall d :: 0 <= d < i ==>
          bbox[d] == Interval(Coord(pts, vind[left], d), Coord(pts, vind[left], d))
      {
        bbox[i] := Interval(DatasetGet(vind[left], i), DatasetGet(vind[left], i));
      }
      assert vind[left..left + 1] == [vind[left]];
      assert vind[left] in vind[left..left + 1];
      for k := left + 1 to right
        invariant TightBox(pts, vind[left..k], bbox[..])
      {
        ExtendBox(left, k, bbox);
        assert vind[left..k + 1] == vind[left..k] + [vind[k]];
      }
    }

    // The inner loop of a box fit: one more point.
    method ExtendBox(left: nat, k: nat, bbox: array<Interval>)
      requires Configured() && bbox.Length == dim && left <= k < vind.Length && vind[k] < |pts|
      requires TightBox(pts, vind[left..k], bbox[..])
      modifies bbox
      ensures TightBox(pts, vind[left..k] + [vind[k]], bbox[..])
    {
      ghost var seg, p, before := vind[left..k], vind[k], bbox[..];
      assert Extended(pts, seg, p, before, before, 0);
      hide Coord, Extended, TightBox;
      for i := 0 to dim
        invariant Extended(pts, seg, p, before, bbox[..], i)
      {
        ghost var box := bbox[..];
        var x := DatasetGet(vind[k], i);
        ExtendStep(pts, seg, p, before, box, i, x);
        if bbox[i].low > x {
          bbox[i] := Interval(x, bbox[i].high);
        }
        if bbox[i].high < x {
          bbox[i] := Interval(bbox[i].low, x);
        }
        assert bbox[..] == box[i := Widened(box[i], x)];
      }
      ExtendEnds(pts, seg, p, before, bbox[..]);
    }

    // Builds the tree over vind[left..right) and shrinks bbox to the points.
    method DivideTree(left: nat, right: nat, bbox: array<Interval>) returns (node: Node)
      requires Configured() && bbox.Length == dim && Range(left, right)
      modifies vind, bbox
      ensures OnlyPermutes(old(vind[..]), vind[..], left, right)
      ensures IsTree(pts, dim, leafMaxSize, node, vind[..], left) && node.End() == right
      ensures TightBox(pts, vind[..][left..right], bbox[..])
      decreases right - left, 2
    {
      if right - left <= leafMaxSize {
        FitBox(left, right, bbox);
        node := Leaf(left, right);
      } else {
        node := DivideRange(left, right, bbox);
      }
    }

    // The inner case: split, divide both sides, join their boxes.
    method DivideRange(left: nat, right: nat, bbox: array<Interval>) returns (node: Node)
      requires Configured() && bbox.Length == dim && Range(left, right) && right - left > leafMaxSize
      modifies vind, bbox
      ensures OnlyPermutes(old(vind[..]), vind[..], left, right)
      ensures IsTree(pts, dim, leafMaxSize, node, vind[..], left) && node.End() == right
      ensures TightBox(pts, vind[..][left..right], bbox[..])
      decreases right - left, 1
    {
      hide Configured, Indexes, OnlyPermutes, Separated, InTheMiddle, NearestCut, IsTree, TightBox, JoinBoxes, Node.End;
      Divisible(left, right);
      ghost var s := vind[..];
      var idx, cutfeat, cutval := MiddleSplit(left, right - left, bbox);
      var mid := left + idx;
      ghost var t := vind[..];
      RangePermutes(pts, s, t, left, right);
      SidesIndexed(pts, s, t, left, mid, right);
      var leftBox := CopyBox(bbox, cutfeat, Interval(bbox[cutfeat].low, cutval));
      var child1 := DivideTree(left, mid, leftBox);
      node := DivideRight(left, mid, right, cutfeat, cutval, child1, bbox, leftBox, s, t);
    }

    // The second half of the inner case: divide the right side, and join both.
    method DivideRight(left: nat, mid: nat, right: nat, cutfeat: nat, cutval: real, child1: Node, bbox: array<Interval>,
                       leftBox: array<Interval>, ghost s: seq<nat>, ghost t: seq<nat>)
      returns (node: Node)
      requires Configured() && left < mid < right <= |s| == vind.Length && bbox.Length == leftBox.Length == dim && cutfeat < dim
      requires bbox != leftBox && Indexes(pts, t, left, right)
      requires OnlyPermutes(s, t, left, right) && OnlyPermutes(t, vind[..], left, mid)
      requires Separated(pts, t, left, mid, right, cutfeat, cutval)
      requires IsTree(pts, dim, leafMaxSize, child1, vind[..], left) && child1.End() == mid
      requires TightBox(pts, vind[..][left..mid], leftBox[..])
      modifies vind, bbox
      ensures OnlyPermutes(s, vind[..], left, right)
      ensures IsTree(pts, dim, leafMaxSize, node, vind[..], left) && node.End() == right
      ensures TightBox(pts, vind[..][left..right], bbox[..])
      decreases right - left, 0
    {
      hide Configured, Indexes, OnlyPermutes, Separated, IsTree, TightBox, Node.End;
      ghost var u := vind[..];
      SidePermutes(pts, t, u, left, mid, right, cutfeat, cutval);
      SidesIndexed(pts, t, u, left, mid, right);
      var rightBox := CopyBox(bbox, cutfeat, Interval(cutval, bbox[cutfeat].high));
      var child2 := DivideTree(mid, right, rightBox);
      node := JoinSides(left, mid, right, cutfeat, cutval, child1, child2, bbox, leftBox, rightBox, s, t, u, vind[..]);
    }

    lemma Divisible(left: nat, right: nat)
      requires Configured() && right - left > leafMaxSize
      ensures 2 <= right - left
    {
    }

    // The end of the inner case: the node, and the box of both sides.
    method JoinSides(left: nat, mid: nat, right: nat, cutfeat: nat, cutval: real, child1: Node, child2: Node,
                     bbox: array<Interval>, leftBox: array<Interval>, rightBox: array<Interval>,
                     ghost s: seq<nat>, ghost t: seq<nat>, ghost u: seq<nat>, ghost v: seq<nat>)
      returns (node: Node)
      requires left < mid < right <= |s| && bbox.Length == leftBox.Length == rightBox.Length == dim && cutfeat < dim
      requires bbox != leftBox && bbox != rightBox && vind[..] == v
      requires OnlyPermutes(s, t, left, right) && OnlyPermutes(t, u, left, mid) && OnlyPermutes(u, v, mid, right)
      requires Separated(pts, u, left, mid, right, cutfeat, cutval)
      requires IsTree(pts, dim, leafMaxSize, child1, u, left) && child1.End() == mid
      requires IsTree(pts, dim, leafMaxSize, child2, v, mid) && child2.End() == right
      requires TightBox(pts, u[left..mid], leftBox[..]) && TightBox(pts, v[mid..right], rightBox[..])
      modifies bbox
      ensures vind[..] == v && OnlyPermutes(s, v, left, right)
      ensures IsTree(pts, dim, leafMaxSize, node, v, left) && node.End() == right
      ensures TightBox(pts, v[left..right], bbox[..])
    {
      hide OnlyPermutes, Separated, IsTree, TightBox, JoinBoxes, Node.End;
      var low, high := leftBox[cutfeat].high, rightBox[cutfeat].low;
      DividedTree(pts, dim, leafMaxSize, s, t, u, v, left, mid, right, cutval, cutfeat, low, high, child1, child2,
                  leftBox[..], rightBox[..]);
      node := Split(cutfeat, low, high, child1, child2);
      Merge(bbox, leftBox, rightBox);
    }

    // The copy constructor of a box, with one interval replaced.
    method CopyBox(bbox: array<Interval>, d: nat, x: Interval) returns (r: array<Interval>)
      requires d < bbox.Length
      ensures fresh(r) && r[..] == bbox[..][d := x]
    {
      r := new Interval[bbox.Length](i requires 0 <= i < bbox.Length reads bbox => bbox[i]);
      r[d] := x;
    }

    method Merge(bbox: array<Interval>, a: array<Interval>, b: array<Interval>)
      requires bbox.Length == a.Length == b.Length && bbox != a && bbox != b
      modifies bbox
      ensures bbox[..] == JoinBoxes(old(a[..]), old(b[..]))
    {
      for i := 0 to bbox.Length
        invariant forall d :: 0 <= d < i ==> bbox[d] == JoinIntervals(a[d], b[d])
      {
        bbox[i] := JoinIntervals(a[i], b[i]);
      }
    }

    // ----- Searching

    // The search is done with the points seen, up to the factor e.
    ghost predicate Finished(rs: ResultSet, vec: Point, e: real, seen: set<nat>)
      reads rs.Objects()
    {
      var dist := DistancesTo(pts, vec);
      Explored(rs.Policy(), rs.Items(), dist, Relaxed(dist, e), seen)
    }

    // The arrays of a search do not overlap the index.
    ghost predicate Separate(rs: ResultSet, dists: array<real>)
      reads this, rs.Objects()
    {
      this !in rs.Repr() && vind !in rs.Repr() && dists !in rs.Repr()
    }

    // A search in progress, with the points seen.
    ghost predicate Searching(rs: ResultSet, dists: array<real>, vec: Point, e: real, seen: set<nat>)
      reads this, rs.Objects(), rs.Repr()
    {
      Configured() && |vec| == dim && rs.Valid() && Separate(rs, dists) && 1.0 <= e && Finished(rs, vec, e, seen)
    }

    // One point of a leaf: it is offered if it beats the worst distance at the start of the leaf.
    method VisitPoint(rs: ResultSet, dists: array<real>, vec: Point, index: nat, worstDist: real, ghost e: real,
                      ghost seen: set<nat>)
      requires Searching(rs, dists, vec, e, seen) && index < |pts| && index !in seen
      requires WorstOf(rs.Policy(), rs.Items()) <= worstDist <= rs.Policy().limit
      modifies rs.Repr()
      ensures rs.Repr() == old(rs.Repr()) && rs.Policy() == old(rs.Policy())
      ensures WorstOf(rs.Policy(), rs.Items()) <= worstDist
      ensures Searching(rs, dists, vec, e, seen + {index})
    {
      ghost var d, s, p := DistancesTo(pts, vec), rs.Items(), rs.Policy();
      var dist := KdtreeDistance(vec, pts[index], dim);
      assert dist == d(index);
      if dist < worstDist {
        RelaxedAbove(d, e);
        OfferExplores(p, s, d, Relaxed(d, e), seen, index);
        OfferLowersWorst(p, s, Item(dist, index));
        rs.AddPoint(dist, index);
      } else {
        SkipExplores(p, s, pts, vec, e, seen, [index], 1.0, dist);
        assert Members([index]) == {index};
      }
    }

    // The leaf case of a search.
    method SearchLeaf(rs: ResultSet, dists: array<real>, vec: Point, left: nat, right: nat,
                      ghost v: seq<nat>, ghost e: real, ghost seen: set<nat>)
      requires vind[..] == v && left <= right <= |v| && IndicesInto(v[left..right], pts) && NoRepeats(v, left, right)
      requires Separate(rs, dists) && Searching(rs, dists, vec, e, seen) && Members(v[left..right]) !! seen
      modifies rs.Repr()
      ensures rs.Repr() == old(rs.Repr()) && rs.Policy() == old(rs.Policy()) && vind[..] == v
      ensures Searching(rs, dists, vec, e, seen + Members(v[left..right]))
    {
      hide NoRepeats, Members;
      var worstDist := CurrentWorst(rs, dists, vec, e, seen);
      hide Searching;
      NothingOf(v, left, seen);
      for i := left to right
        invariant vind[..] == v && rs.Repr() == old(rs.Repr()) && rs.Policy() == old(rs.Policy())
        invariant WorstOf(rs.Policy(), rs.Items()) <= worstDist <= rs.Policy().limit
        invariant Searching(rs, dists, vec, e, seen + Members(v[left..i]))
      {
        NextMember(v, left, i, right, seen);
        VisitPoint(rs, dists, vec, vind[i], worstDist, e, seen + Members(v[left..i]));
      }
    }

    lemma NothingOf(v: seq<nat>, left: nat, seen: set<nat>)
      requires left <= |v|
      ensures seen + Members(v[left..left]) == seen
    {
    }

    method CurrentWorst(rs: ResultSet, dists: array<real>, vec: Point, ghost e: real, ghost seen: set<nat>) returns (d: real)
      requires Searching(rs, dists, vec, e, seen)
      ensures d == WorstOf(rs.Policy(), rs.Items()) <= rs.Policy().limit && Searching(rs, dists, vec, e, seen)
    {
      d := rs.WorstDist();
    }

    // The bound of one axis is replaced; the search is where it was.
    method SetBound(rs: ResultSet, dists: array<real>, vec: Point, idx: nat, x: real, ghost e: real, ghost seen: set<nat>)
      requires Searching(rs, dists, vec, e, seen) && idx < dists.Length
      modifies dists
      ensures Searching(rs, dists, vec, e, seen) && rs.Repr() == old(rs.Repr()) && rs.Policy() == old(rs.Policy())
      ensures dists[..] == old(dists[..])[idx := x] && vind[..] == old(vind[..])
    {
      hide Explored, Consistent, KNNResultSet.Stored;
      dists[idx] := x;
    }

    // The far side of a split: it is searched unless its bound rules it out.
    method SearchFar(rs: ResultSet, vec: Point, node: Node, cut: real, idx: nat, mindistsq: real, dists: array<real>,
                     epsError: real, ghost v: seq<nat>, ghost start: nat, ghost e: real, ghost seen: set<nat>)
      requires vind[..] == v && Subtree(pts, dim, leafMaxSize, v, node, start) && PointsOf(v, node, start) !! seen
      requires Separate(rs, dists) && Searching(rs, dists, vec, e, seen) && epsError <= e
      requires |vec| == dim == dists.Length && idx < dim
      requires BoundedBelow(dists[..], pts, vec, Entries(v, node, start)) && mindistsq == SumTo(dists[..], dim)
      requires Opposite(pts, vec, Entries(v, node, start), idx, cut)
      modifies rs.Repr(), dists
      ensures rs.Repr() == old(rs.Repr()) && rs.Policy() == old(rs.Policy()) && vind[..] == v
      ensures dists[..] == old(dists[..])
      ensures Searching(rs, dists, vec, e, seen + PointsOf(v, node, start))
      decreases node, 2
    {
      CloudFacts(rs, dists, vec, e, seen, v, node, start);
      hide Searching, Subtree, Entries, PointsOf, BoundedBelow, Opposite, AllBeyond, SumTo, AxisDist, IndicesInto, Cloud,
           ResultSet.Repr, ResultSet.Policy, ResultSet.Items;
      ghost var bounds := dists[..];
      var dst, cutDist := dists[idx], AxisDist(vec[idx], cut);
      var farDist := mindistsq + cutDist - dst;
      FarFacts(bounds, pts, vec, Entries(v, node, start), idx, cut, cutDist, farDist);
      SetBound(rs, dists, vec, idx, cutDist, e, seen);
      SearchPruned(rs, vec, node, farDist, dists, epsError, v, start, e, seen);
      SetBound(rs, dists, vec, idx, dst, e, seen + PointsOf(v, node, start));
      Restored(bounds, idx, cutDist);
    }

    lemma Restored(s: seq<real>, i: nat, x: real)
      requires i < |s|
      ensures s[i := x][i := s[i]] == s
    {
    }

    lemma CloudFacts(rs: ResultSet, dists: array<real>, vec: Point, e: real, seen: set<nat>, v: seq<nat>, node: Node, start: nat)
      requires Searching(rs, dists, vec, e, seen) && Subtree(pts, dim, leafMaxSize, v, node, start)
      ensures Cloud(pts, dim) && IndicesInto(Entries(v, node, start), pts)
    {
    }

    // Searches a subtree unless its bound, relaxed by the error, is beyond the worst distance.
    method SearchPruned(rs: ResultSet, vec: Point, node: Node, mindistsq: real, dists: array<real>,
                        epsError: real, ghost v: seq<nat>, ghost start: nat, ghost e: real, ghost seen: set<nat>)
      requires vind[..] == v && Subtree(pts, dim, leafMaxSize, v, node, start) && PointsOf(v, node, start) !! seen
      requires Separate(rs, dists) && Searching(rs, dists, vec, e, seen) && epsError <= e
      requires |vec| == dim == dists.Length
      requires BoundedBelow(dists[..], pts, vec, Entries(v, node, start)) && mindistsq == SumTo(dists[..], dim)
      requires AllBeyond(pts, vec, Entries(v, node, start), mindistsq)
      modifies rs.Repr(), dists
      ensures rs.Repr() == old(rs.Repr()) && rs.Policy() == old(rs.Policy()) && vind[..] == v
      ensures dists[..] == old(dists[..])
      ensures Searching(rs, dists, vec, e, seen + PointsOf(v, node, start))
      decreases node, 1
    {
      hide Searching, Subtree, Entries, PointsOf, BoundedBelow, AllBeyond, SumTo, Scale, WorstOf;
      var worst := CurrentWorst(rs, dists, vec, e, seen);
      if Scale(mindistsq, epsError) <= worst {
        SearchLevel(rs, vec, node, mindistsq, dists, epsError, v, start, e, seen);
      } else {
        PassedOver(rs, dists, vec, e, seen, Entries(v, node, start), epsError, mindistsq);
        assert Members(Entries(v, node, start)) == PointsOf(v, node, start) by {
          PointsAre(v, node, start);
        }
      }
    }

    lemma PointsAre(v: seq<nat>, node: Node, start: nat)
      ensures Members(Entries(v, node, start)) == PointsOf(v, node, start)
    {
    }

    // Points beyond the worst distance count as seen.
    lemma PassedOver(rs: ResultSet, dists: array<real>, vec: Point, e: real, seen: set<nat>, seg: seq<nat>, f: real, m: real)
      requires Searching(rs, dists, vec, e, seen) && f <= e
      requires AllBeyond(pts, vec, seg, m) && WorstOf(rs.Policy(), rs.Items()) <= Scale(m, f)
      ensures Searching(rs, dists, vec, e, seen + Members(seg))
    {
      SkipExplores(rs.Policy(), rs.Items(), pts, vec, e, seen, seg, f, m);
    }

    // Searches a subtree: the near side first, then the far side.
    method SearchLevel(rs: ResultSet, vec: Point, node: Node, mindistsq: real, dists: array<real>,
                       epsError: real, ghost v: seq<nat>, ghost start: nat, ghost e: real, ghost seen: set<nat>)
      requires vind[..] == v && Subtree(pts, dim, leafMaxSize, v, node, start) && PointsOf(v, node, start) !! seen
      requires Separate(rs, dists) && Searching(rs, dists, vec, e, seen) && epsError <= e
      requires |vec| == dim == dists.Length
      requires BoundedBelow(dists[..], pts, vec, Entries(v, node, start)) && mindistsq == SumTo(dists[..], dim)
      modifies rs.Repr(), dists
      ensures rs.Repr() == old(rs.Repr()) && rs.Policy() == old(rs.Policy()) && vind[..] == v
      ensures dists[..] == old(dists[..])
      ensures Searching(rs, dists, vec, e, seen + PointsOf(v, node, start))
      decreases node, 0
    {
      hide Searching, Subtree, Entries, PointsOf, BoundedBelow, Opposite, SumTo;
      match node
      case Leaf(left, right) =>
        LeafEntries(pts, dim, leafMaxSize, v, left, right, start);
        PointsAre(v, node, start);
        SearchLeaf(rs, dists, vec, left, right, v, e, seen);
      case Split(idx, divlow, divhigh, child1, child2) =>
        ghost var mid := child1.End();
        SplitFacts(pts, dim, leafMaxSize, v, node, start, dists[..], vec);
        TreeOf(pts, dim, leafMaxSize, v, node, start);
        SplitCuts(pts, dim, leafMaxSize, v, node, start, vec);
        ghost var p1, p2 := PointsOf(v, child1, start), PointsOf(v, child2, mid);
        assert seen + p1 + p2 == seen + PointsOf(v, node, start) && seen + p2 + p1 == seen + PointsOf(v, node, start);
        var diff1, diff2 := vec[idx] - divlow, vec[idx] - divhigh;
        if diff1 + diff2 < 0.0 {
          SearchLevel(rs, vec, child1, mindistsq, dists, epsError, v, start, e, seen);
          SearchFar(rs, vec, child2, divhigh, idx, mindistsq, dists, epsError, v, mid, e, seen + p1);
        } else {
          SearchLevel(rs, vec, child2, mindistsq, dists, epsError, v, mid, e, seen);
          SearchFar(rs, vec, child1, divlow, idx, mindistsq, dists, epsError, v, start, e, seen + p2);
        }
    }

    // The squared distance of the query to the root box, axis by axis.
    method ComputeInitialDistances(vec: Point, dists: array<real>) returns (distsq: real)
      requires Configured() && Built() && root.Some? && |vec| == dim == dists.Length
      requires forall d :: 0 <= d < dim ==> dists[d] == 0.0
      modifies dists
      ensures BoundedBelow(dists[..], pts, vec, vind[..]) && distsq == SumTo(dists[..], dim)
      ensures AllNearest(dists[..], vec, rootBBox[..])
    {
      ghost var v, box := vind[..], rootBBox[..];
      RootBoxFacts();
      hide Built, TightBox, AxisDist, BoxDist, BoundedBelow, BoxedUpTo, SumTo, AllNearest;
      distsq := 0.0;
      NothingBoxed(dists[..], vec, box);
      for i := 0 to dim
        invariant BoxedUpTo(dists[..], vec, box, i) && distsq == SumTo(dists[..], i)
      {
        ghost var before := dists[..];
        BoxedStep(before, vec, box, i);
        var low, high := rootBBox[i].low, rootBBox[i].high;
        if vec[i] < low {
          dists[i] := AxisDist(vec[i], low);
          distsq := distsq + dists[i];
        }
        if vec[i] > high {
          dists[i] := AxisDist(vec[i], high);
          distsq := distsq + dists[i];
        }
        assert dists[..] == before[i := BoxDist(vec[i], box[i])];
      }
      BoxBounds(dists[..], pts, vec, v, box);
      BoxedAreNearest(dists[..], vec, box);
    }

    lemma RootBoxFacts()
      requires Built() && root.Some?
      ensures rootBBox.Length == dim && TightBox(pts, vind[..], rootBBox[..])
      ensures forall d :: 0 <= d < dim ==> rootBBox[d].low <= rootBBox[d].high
    {
      hide IsTree;
      forall d | 0 <= d < dim
        ensures rootBBox[d].low <= rootBBox[d].high
      {
        ExtremesOrdered(pts, vind[..], d, rootBBox[d].low, rootBBox[d].high);
      }
    }

    // Searches the whole tree with relative error eps.
    method FindNeighbors(rs: ResultSet, vec: Point, eps: real) returns (r: Result<bool>)
      requires Configured() && Built() && |vec| == dim
      requires rs.Valid() && rs.Items() == [] && this !in rs.Repr() && vind !in rs.Repr() && rootBBox !in rs.Repr()
      modifies rs.Repr()
      ensures rs.Valid() && rs.Repr() == old(rs.Repr()) && rs.Policy() == old(rs.Policy())
      ensures r.Failure? <==> |pts| > 0 && root.None?
      ensures r.Success? ==> Finished(rs, vec, if eps > 0.0 then 1.0 + eps else 1.0, AllIndices(|pts|))
      ensures r.Success? && |pts| > 0 ==>
        (r.value <==> (rs.Policy().Nearest? ==> |rs.Items()| == rs.Policy().capacity))
      ensures |pts| == 0 ==> r == Success(false)
    {
      hide Built, Explored, Consistent, DistancesTo, Relaxed;
      if |pts| == 0 {
        NothingSeen(rs, vec, if eps > 0.0 then 1.0 + eps else 1.0);
        return Success(false);
      }
      if root.None? {
        return Failure(NotBuilt);
      }
      SearchRoot(rs, vec, 1.0 + eps, if eps > 0.0 then 1.0 + eps else 1.0);
      var full := rs.Full();
      return Success(full);
    }

    // The search from the root.
    method SearchRoot(rs: ResultSet, vec: Point, epsError: real, ghost e: real)
      requires Configured() && Built() && root.Some? && |vec| == dim && epsError <= e && 1.0 <= e
      requires rs.Valid() && rs.Items() == [] && this !in rs.Repr() && vind !in rs.Repr() && rootBBox !in rs.Repr()
      modifies rs.Repr()
      ensures rs.Valid() && rs.Repr() == old(rs.Repr()) && rs.Policy() == old(rs.Policy())
      ensures Finished(rs, vec, e, AllIndices(|pts|))
    {
      hide Built, Searching, Finished, Subtree, SumTo, BoundedBelow, Entries, PointsOf, Configured, ResultSet.Valid,
           ResultSet.Items;
      ghost var v := vind[..];
      RootFacts();
      var dists, distsq := InitSearch(rs, vec, e);
      SearchLevel(rs, vec, root.value, distsq, dists, epsError, v, 0, e, {});
      SearchEnds(rs, dists, vec, e, {} + PointsOf(v, root.value, 0));
      assert {} + PointsOf(v, root.value, 0) == AllIndices(|pts|);
    }

    // The start of a search: the distances to the root box.
    method InitSearch(rs: ResultSet, vec: Point, ghost e: real) returns (dists: array<real>, distsq: real)
      requires Configured() && Built() && root.Some? && |vec| == dim && 1.0 <= e
      requires rs.Valid() && rs.Items() == [] && this !in rs.Repr() && vind !in rs.Repr() && rootBBox !in rs.Repr()
      ensures fresh(dists) && dists.Length == dim && Separate(rs, dists) && Searching(rs, dists, vec, e, {})
      ensures rs.Repr() == old(rs.Repr()) && rs.Policy() == old(rs.Policy()) && vind[..] == old(vind[..])
      ensures BoundedBelow(dists[..], pts, vec, vind[..]) && distsq == SumTo(dists[..], dim)
    {
      hide Built, SumTo, BoundedBelow, AllNearest, KNNResultSet.Stored, Consistent, Explored;
      dists := new real[dim](_ => 0.0);
      distsq := ComputeInitialDistances(vec, dists);
      SearchBegins(rs, dists, vec, e);
    }

    // The tree covers all points.
    lemma RootFacts()
      requires Built() && root.Some?
      ensures Entries(vind[..], root.value, 0) == vind[..] && PointsOf(vind[..], root.value, 0) == AllIndices(|pts|)
      ensures Subtree(pts, dim, leafMaxSize, vind[..], root.value, 0)
    {
      hide TightBox, IsTree;
      RootEntries(pts, dim, leafMaxSize, vind[..], root.value);
    }

    lemma SearchBegins(rs: ResultSet, dists: array<real>, vec: Point, e: real)
      requires Configured() && |vec| == dim && rs.Valid() && rs.Items() == [] && Separate(rs, dists) && 1.0 <= e
      ensures Searching(rs, dists, vec, e, {})
    {
      NothingSeen(rs, vec, e);
    }

    lemma SearchEnds(rs: ResultSet, dists: array<real>, vec: Point, e: real, seen: set<nat>)
      requires Searching(rs, dists, vec, e, seen)
      ensures rs.Valid() && Finished(rs, vec, e, seen)
    {
    }

    // An empty result is right for no points.
    lemma NothingSeen(rs: ResultSet, vec: Point, e: real)
      requires rs.Valid() && rs.Items() == []
      ensures Finished(rs, vec, e, {})
    {
    }

    // The num_closest nearest points of a query, written to the caller's buffers.
    method KnnSearch(query: Point, numClosest: nat, outIndices: array<nat>, outDists: array<real>, maxDist: real)
      returns (r: Result<nat>)
      requires Configured() && Built() && |query| == dim && 0 < numClosest
      requires numClosest <= outIndices.Length && numClosest <= outDists.Length && outIndices != vind
      modifies outIndices, outDists
      ensures r.Failure? <==> |pts| > 0 && root.None?
      ensures r.Success? ==>
        && r.value <= numClosest
        && NearestAnswer(pts, query, numClosest, maxDist, outDists[..r.value], outIndices[..r.value])
    {
      hide Built, Explored, NearestAnswer, Consistent, DistancesTo, Relaxed, AllIndices, Buffered;
      var knn := new KNNResultSet(numClosest, outIndices, outDists, maxDist);
      var rs := Knn(knn);
      var found := FindNeighbors(rs, query, 0.0);
      if found.Failure? {
        return Failure(found.error);
      }
      StoredBuffers(knn);
      BufferedAnswer(pts, query, numClosest, maxDist, knn.items, outDists[..knn.count], outIndices[..knn.count]);
      return Success(knn.count);
    }

    lemma StoredBuffers(knn: KNNResultSet)
      requires knn.Stored()
      ensures knn.count <= knn.capacity && Buffered(knn.items, knn.dists[..knn.count], knn.indices[..knn.count])
    {
    }

    // All points within a radius: by increasing distance if `sorted`, else in the order in which the search meets them.
    method RadiusSearch(query: Point, radius: real, eps: real, sorted: bool) returns (r: Result<seq<Item>>)
      requires Configured() && Built() && |query| == dim
      ensures r.Failure? <==> |pts| > 0 && root.None?
      ensures r.Success? ==> Distinct(r.value) && (sorted ==> Sorted(r.value))
      ensures r.Success? ==> forall i :: 0 <= i < |r.value| ==>
        r.value[i].index < |pts| && r.value[i].dist == PointDist(pts, query, r.value[i].index) < radius
      ensures r.Success? && eps <= 0.0 ==>
        forall k: nat :: k < |pts| ==> (k in Indices(r.value) <==> PointDist(pts, query, k) < radius)
      ensures r.Success? && eps <= 0.0 && sorted ==>
        var b := BruteForce(DistancesTo(pts, query), |pts|);
        |r.value| <= |pts| && (forall i :: 0 <= i < |r.value| ==> r.value[i].dist == b[i].dist) &&
        forall i :: 0 <= i < |pts| ==> (i < |r.value| <==> b[i].dist < radius)
      ensures r.Success? && eps > 0.0 ==>
        forall k: nat :: k < |pts| && Relaxed(DistancesTo(pts, query), 1.0 + eps)(k) < radius ==> k in Indices(r.value)
    {
      hide Built, Explored, Relaxed, Distinct, Sorted, Indices, PointDist, BruteForce, AllIndices;
      var rad := new RadiusResultSet(radius);
      var rs := Radius(rad);
      var found := FindNeighbors(rs, query, eps);
      if found.Failure? {
        return Failure(found.error);
      }
      ghost var d, e := DistancesTo(pts, query), if eps > 0.0 then 1.0 + eps else 1.0;
      RadiusAnswer(radius, rad.found, rad.found, d, e, |pts|);
      if sorted {
        var t := SortByDistance(rad.found);
        RadiusAnswer(radius, rad.found, t, d, e, |pts|);
        if eps <= 0.0 {
          SortedRadius(radius, rad.found, t, d, |pts|);
        }
        return Success(t);
      }
      return Success(rad.found);
    }
  }
}
