// The coded reference picture sets agree with the derivation of the standard.
module RefPicSetProofs {
  import opened RefPicSets
  import opened Sequences

  // ----- Strictly ordered lists are determined by their members

  function Key(x: Pic, up: bool): int {
    if up then -x.delta else x.delta
  }

  // Strictly ascending (up) or strictly descending deltas.
  ghost predicate Strict(s: seq<Pic>, up: bool) {
    forall i, j :: 0 <= i < j < |s| ==> Key(s[i], up) > Key(s[j], up)
  }

  lemma {:induction false} StrictUnique(s: seq<Pic>, t: seq<Pic>, up: bool)
    requires Strict(s, up) && Strict(t, up)
    requires forall x :: x in s <==> x in t
    ensures s == t
    decreases |s|
  {
    assert t != [] ==> t[0] in s;
    if s != [] {
      SameFirst(s, t, up);
      forall x ensures x in s[1..] <==> x in t[1..] {
        TailMember(s, up, x);
        TailMember(t, up, x);
      }
      StrictUnique(s[1..], t[1..], up);
      assert s == [s[0]] + s[1..] && t == [t[0]] + t[1..];
    }
  }

  lemma SameFirst(s: seq<Pic>, t: seq<Pic>, up: bool)
    requires Strict(s, up) && Strict(t, up) && s != []
    requires forall x :: x in s <==> x in t
    ensures t != [] && s[0] == t[0]
  {
    assert s[0] in t;
    var i :| 0 <= i < |t| && t[i] == s[0];
    assert t[0] in s;
    var j :| 0 <= j < |s| && s[j] == t[0];
  }

  lemma TailMember(s: seq<Pic>, up: bool, x: Pic)
    requires Strict(s, up) && s != []
    ensures x in s[1..] <==> x in s && x != s[0]
  {
    if x in s && x != s[0] {
      var i :| 0 <= i < |s| && s[i] == x;
      assert s[1..][i - 1] == x;
    }
    if x in s[1..] {
      var i :| 0 <= i < |s| - 1 && s[1..][i] == x;
      assert s[i + 1] == x;
    }
  }

  // ----- The candidates

  lemma CandidatesDistinct(ref: PicSet, d: int, flags: seq<Flags>)
    requires WellFormed(ref) && |flags| == |ref.pics| + 1
    ensures forall j, k :: 0 <= j < k < |flags| ==>
      Candidate(ref.pics, d, flags, j).delta != Candidate(ref.pics, d, flags, k).delta
  {
  }

  lemma {:induction false} SelectedMembers(ref: seq<Pic>, d: int, flags: seq<Flags>, n: nat)
    requires n <= |flags|
    ensures forall x :: x in Selected(ref, d, flags, n) <==>
      exists j :: 0 <= j < n && flags[j].Selected() && Candidate(ref, d, flags, j) == x
  {
    if n > 0 {
      SelectedMembers(ref, d, flags, n - 1);
    }
  }

  lemma {:induction false} SelectedDistinct(ref: PicSet, d: int, flags: seq<Flags>, n: nat)
    requires WellFormed(ref) && n <= |flags| == |ref.pics| + 1
    ensures DistinctDeltas(Selected(ref.pics, d, flags, n))
  {
    if n > 0 {
      SelectedDistinct(ref, d, flags, n - 1);
      SelectedMembers(ref.pics, d, flags, n - 1);
      CandidatesDistinct(ref, d, flags);
      var s := Selected(ref.pics, d, flags, n - 1);
      forall i | 0 <= i < |s| ensures s[i].delta != Candidate(ref.pics, d, flags, n - 1).delta {
        assert s[i] in s;
      }
    }
  }

  lemma {:induction false} CollectMembers(ref: seq<Pic>, d: int, flags: seq<Flags>, order: seq<nat>, negative: bool, k: nat)
    requires k <= |order| && forall i :: 0 <= i < |order| ==> order[i] < |flags|
    ensures forall x :: x in Collect(ref, d, flags, order, negative, k) <==>
      exists i :: 0 <= i < k && flags[order[i]].Selected() && Wanted(x, negative)
               && Candidate(ref, d, flags, order[i]) == x
  {
    if k > 0 {
      CollectMembers(ref, d, flags, order, negative, k - 1);
    }
  }

  // The candidates descend along an order.
  ghost predicate Descends(ref: seq<Pic>, d: int, flags: seq<Flags>, order: seq<nat>, up: bool)
    requires forall i :: 0 <= i < |order| ==> order[i] < |flags|
  {
    forall i, j :: 0 <= i < j < |order| ==>
      Key(Candidate(ref, d, flags, order[i]), up) > Key(Candidate(ref, d, flags, order[j]), up)
  }

  // Collecting along a strictly ordered sequence of candidates gives a strictly ordered list.
  lemma {:induction false} CollectStrict(ref: seq<Pic>, d: int, flags: seq<Flags>, order: seq<nat>, negative: bool, k: nat, up: bool)
    requires k <= |order| && forall i :: 0 <= i < |order| ==> order[i] < |flags|
    requires Descends(ref, d, flags, order, up)
    ensures Strict(Collect(ref, d, flags, order, negative, k), up)
  {
    if k > 0 {
      CollectStrict(ref, d, flags, order, negative, k - 1, up);
      CollectedBefore(ref, d, flags, order, negative, k - 1, up);
      hide Descends, Candidate, Wanted, Key;
    }
  }

  // What has been collected comes before the next candidate.
  lemma CollectedBefore(ref: seq<Pic>, d: int, flags: seq<Flags>, order: seq<nat>, negative: bool, k: nat, up: bool)
    requires k < |order| && forall i :: 0 <= i < |order| ==> order[i] < |flags|
    requires Descends(ref, d, flags, order, up)
    ensures var s := Collect(ref, d, flags, order, negative, k);
      forall i :: 0 <= i < |s| ==> Key(s[i], up) > Key(Candidate(ref, d, flags, order[k]), up)
  {
    CollectMembers(ref, d, flags, order, negative, k);
    hide Collect, Key, Candidate;
    var s := Collect(ref, d, flags, order, negative, k);
    forall i | 0 <= i < |s|
      ensures Key(s[i], up) > Key(Candidate(ref, d, flags, order[k]), up)
    {
      assert s[i] in s;
    }
  }

  // ----- The two orders

  lemma OrderS0Visits(m: nat, n: nat, j: nat) returns (i: nat)
    requires m <= n && j <= n
    ensures i <= n && OrderS0(m, n)[i] == j
  {
    i := if j == n then n - m else if j >= m then n - 1 - j else n - m + 1 + j;
  }

  lemma OrderS1Visits(m: nat, n: nat, j: nat) returns (i: nat)
    requires m <= n && j <= n
    ensures i <= n && OrderS1(m, n)[i] == j
  {
    i := if j == n then m else if j < m then m - 1 - j else j + 1;
  }

  lemma OrdersInRange(m: nat, n: nat)
    requires m <= n
    ensures forall i :: 0 <= i <= n ==> OrderS0(m, n)[i] <= n && OrderS1(m, n)[i] <= n
  {
  }

  lemma OrdersMonotone(ref: PicSet, d: int, flags: seq<Flags>)
    requires WellFormed(ref) && |flags| == |ref.pics| + 1
    ensures Descends(ref.pics, d, flags, OrderS0(ref.negatives, |ref.pics|), false)
    ensures Descends(ref.pics, d, flags, OrderS1(ref.negatives, |ref.pics|), true)
  {
  }

  // An order that visits every candidate collects exactly the selected ones of the wanted sign.
  lemma CollectIsSelected(ref: seq<Pic>, d: int, flags: seq<Flags>, order: seq<nat>, negative: bool, x: Pic)
    requires (forall i :: 0 <= i < |order| ==> order[i] < |flags|) && forall j: nat :: j < |flags| ==> j in order
    ensures x in Collect(ref, d, flags, order, negative, |order|) <==>
            x in Selected(ref, d, flags, |flags|) && Wanted(x, negative)
  {
    SelectedMembers(ref, d, flags, |flags|);
    CollectMembers(ref, d, flags, order, negative, |order|);
    hide Collect, Selected, Candidate;
    if x in Collect(ref, d, flags, order, negative, |order|) {
      var i :| 0 <= i < |order| && flags[order[i]].Selected() && Wanted(x, negative)
               && Candidate(ref, d, flags, order[i]) == x;
    }
    if x in Selected(ref, d, flags, |flags|) && Wanted(x, negative) {
      var j :| 0 <= j < |flags| && flags[j].Selected() && Candidate(ref, d, flags, j) == x;
      assert j in order;
    }
  }

  lemma OrdersVisitAll(m: nat, n: nat)
    requires m <= n
    ensures forall j: nat :: j < n + 1 ==> j in OrderS0(m, n) && j in OrderS1(m, n)
  {
    forall j: nat | j < n + 1
      ensures j in OrderS0(m, n) && j in OrderS1(m, n)
    {
      var i0 := OrderS0Visits(m, n, j);
      var i1 := OrderS1Visits(m, n, j);
    }
  }

  // The derived lists hold exactly the selected candidates of their sign.
  lemma DerivedMembers(ref: PicSet, d: int, flags: seq<Flags>, x: Pic)
    requires WellFormed(ref) && |flags| == |ref.pics| + 1
    ensures x in DerivedNegative(ref, d, flags) <==> x in Selected(ref.pics, d, flags, |flags|) && x.delta < 0
    ensures x in DerivedPositive(ref, d, flags) <==> x in Selected(ref.pics, d, flags, |flags|) && x.delta > 0
  {
    var n, m := |ref.pics|, ref.negatives;
    OrdersVisitAll(m, n);
    OrdersInRange(m, n);
    hide Collect, Selected, OrderS0, OrderS1, WellFormed;
    CollectIsSelected(ref.pics, d, flags, OrderS0(m, n), true, x);
    CollectIsSelected(ref.pics, d, flags, OrderS1(m, n), false, x);
  }

  // ----- The sorted set

  lemma {:induction false} NegativesFirst(s: seq<Pic>)
    requires Ascending(s)
    ensures forall i :: 0 <= i < |s| ==> (s[i].delta < 0 <==> i < CountNegative(s))
  {
    if s != [] {
      NegativesFirst(s[..|s| - 1]);
    }
  }

  lemma {:induction false} CountInsert(s: seq<Pic>, x: Pic)
    ensures CountNegative(InsertPic(s, x)) == CountNegative(s) + (if x.delta < 0 then 1 else 0)
  {
    var r := InsertPic(s, x);
    if s == [] || s[|s| - 1].delta <= x.delta {
      assert r[..|r| - 1] == s;
    } else {
      CountInsert(s[..|s| - 1], x);
      assert r[..|r| - 1] == InsertPic(s[..|s| - 1], x);
    }
  }

  lemma {:induction false} CountSorted(s: seq<Pic>)
    ensures CountNegative(SortPics(s)) == CountNegative(s)
  {
    if s != [] {
      CountSorted(s[..|s| - 1]);
      CountInsert(SortPics(s[..|s| - 1]), s[|s| - 1]);
    }
  }

  // Sorting and flipping: the negative part strictly descending, the rest strictly ascending, both with
  // exactly the members of their sign.
  lemma SortedParts(s: seq<Pic>)
    requires DistinctDeltas(s)
    ensures var k, r := CountNegative(s), FlipHead(SortPics(s), CountNegative(s));
      && Strict(r[..k], false) && Strict(r[k..], true)
      && (forall x :: x in r[..k] <==> x in s && x.delta < 0)
      && (forall x :: x in r[k..] <==> x in s && x.delta >= 0)
  {
    hide SortPics, CountNegative, FlipHead, Strict, Ascending, DistinctDeltas;
    var k, t := CountNegative(s), SortPics(s);
    var r := FlipHead(t, k);
    SortPicsSorts(s);
    CountSorted(s);
    NegativesFirst(t);
    SameMembers(s, t);
    SortedStrict(s, t);
    forall x ensures x in r[..k] <==> x in s && x.delta < 0 {
      FlippedMember(t, k, x);
    }
    forall x ensures x in r[k..] <==> x in s && x.delta >= 0 {
      TailPartMember(t, k, x);
    }
    FlipStrict(t, k);
  }

  lemma FlipStrict(t: seq<Pic>, k: nat)
    requires k <= |t| && Strict(t, true)
    ensures Strict(FlipHead(t, k)[..k], false) && Strict(FlipHead(t, k)[k..], true)
  {
  }

  lemma SortedStrict(s: seq<Pic>, t: seq<Pic>)
    requires multiset(s) == multiset(t) && DistinctDeltas(s) && Ascending(t)
    ensures Strict(t, true)
  {
    forall i, j | 0 <= i < j < |t| ensures t[i].delta != t[j].delta {
      if t[i].delta == t[j].delta {
        TwoOfADelta(s, t, i, j);
      }
    }
  }

  // Two entries of t with one delta would be two entries of s with one delta.
  lemma TwoOfADelta(s: seq<Pic>, t: seq<Pic>, i: nat, j: nat)
    requires multiset(s) == multiset(t) && i < j < |t| && t[i].delta == t[j].delta
    ensures !DistinctDeltas(s)
  {
    var x, y := t[i], t[j];
    if x == y {
      CountTwice(t, i, j);
      var a, b := TwoPlaces(s, x);
    } else {
      SameMembers(s, t);
      assert x in s && y in s;
      var a :| 0 <= a < |s| && s[a] == x;
      var b :| 0 <= b < |s| && s[b] == y;
      assert a < b || b < a;
    }
  }

  lemma FlippedMember(t: seq<Pic>, k: nat, x: Pic)
    requires k <= |t| && forall i :: 0 <= i < |t| ==> (t[i].delta < 0 <==> i < k)
    ensures x in FlipHead(t, k)[..k] <==> x in t && x.delta < 0
  {
    var r := FlipHead(t, k);
    FlippedEntries(t, k);
    hide FlipHead;
    if x in t && x.delta < 0 {
      var i :| 0 <= i < |t| && t[i] == x;
      assert r[..k][k - 1 - i] == x;
    }
    if x in r[..k] {
      var i :| 0 <= i < k && r[..k][i] == x;
      assert t[k - 1 - i] == x;
    }
  }

  lemma FlippedEntries(t: seq<Pic>, k: nat)
    requires k <= |t|
    ensures |FlipHead(t, k)| == |t|
    ensures forall i {:trigger FlipHead(t, k)[..k][i]} :: 0 <= i < k ==> FlipHead(t, k)[..k][i] == t[k - 1 - i]
  {
  }

  lemma TailPartMember(t: seq<Pic>, k: nat, x: Pic)
    requires k <= |t| && forall i :: 0 <= i < |t| ==> (t[i].delta < 0 <==> i < k)
    ensures x in FlipHead(t, k)[k..] <==> x in t && x.delta >= 0
  {
    var r := FlipHead(t, k);
    if x in t && x.delta >= 0 {
      var i :| 0 <= i < |t| && t[i] == x;
      assert r[k..][i - k] == x;
    }
    if x in r[k..] {
      var i :| 0 <= i < |t| - k && r[k..][i] == x;
      assert t[k + i] == x;
    }
  }

  // ----- Main results

  // The parsed set agrees with the derivation if and only if no selected candidate has delta 0.
  lemma InterAgrees(ref: PicSet, d: int, flags: seq<Flags>)
    requires WellFormed(ref) && |flags| == |ref.pics| + 1
    ensures FromInter(ref.pics, d, flags) == Derived(ref, d, flags) <==> NoZero(ref.pics, d, flags)
  {
    hide FromInter, Derived, DerivedNegative, DerivedPositive, Strict, Selected, WellFormed, NoZero;
    DerivedIs(ref, d, flags);
    var s, r := Selected(ref.pics, d, flags, |flags|), FromInter(ref.pics, d, flags);
    var s0, s1 := DerivedNegative(ref, d, flags), DerivedPositive(ref, d, flags);
    ParsedParts(ref, d, flags);
    NegativePartAgrees(ref, d, flags);
    ZeroSelected(ref, d, flags);
    if NoZero(ref.pics, d, flags) {
      PositivePartAgrees(ref, d, flags);
      SameParts(r, s0, s1);
    } else {
      var x: Pic :| x in s && x.delta == 0;
      DerivedMembers(ref, d, flags, x);
      DifferentParts(r, s0, s1, x);
    }
  }

  lemma DerivedIs(ref: PicSet, d: int, flags: seq<Flags>)
    requires WellFormed(ref) && |flags| == |ref.pics| + 1
    ensures ref.negatives <= |ref.pics|
    ensures Derived(ref, d, flags) ==
            PicSet(DerivedNegative(ref, d, flags) + DerivedPositive(ref, d, flags), |DerivedNegative(ref, d, flags)|)
  {
    hide Collect, OrderS0, OrderS1;
  }

  lemma SameParts(r: PicSet, s0: seq<Pic>, s1: seq<Pic>)
    requires r.negatives <= |r.pics| && r.pics[..r.negatives] == s0 && r.pics[r.negatives..] == s1
    ensures r == PicSet(s0 + s1, |s0|)
  {
    assert r.pics == r.pics[..r.negatives] + r.pics[r.negatives..];
  }

  lemma DifferentParts(r: PicSet, s0: seq<Pic>, s1: seq<Pic>, x: Pic)
    requires r.negatives <= |r.pics| && r.pics[..r.negatives] == s0 && x in r.pics[r.negatives..] && x !in s1
    ensures r != PicSet(s0 + s1, |s0|)
  {
    assert (s0 + s1)[|s0|..] == s1;
  }

  lemma ZeroSelected(ref: PicSet, d: int, flags: seq<Flags>)
    requires |flags| == |ref.pics| + 1
    ensures NoZero(ref.pics, d, flags) <==> forall x :: x in Selected(ref.pics, d, flags, |flags|) ==> x.delta != 0
  {
    SelectedMembers(ref.pics, d, flags, |flags|);
  }

  // The two lists of the derivation.
  function DerivedNegative(ref: PicSet, d: int, flags: seq<Flags>): seq<Pic>
    requires ref.negatives <= |ref.pics| && |flags| == |ref.pics| + 1
  {
    Collect(ref.pics, d, flags, OrderS0(ref.negatives, |ref.pics|), true, |ref.pics| + 1)
  }

  function DerivedPositive(ref: PicSet, d: int, flags: seq<Flags>): seq<Pic>
    requires ref.negatives <= |ref.pics| && |flags| == |ref.pics| + 1
  {
    Collect(ref.pics, d, flags, OrderS1(ref.negatives, |ref.pics|), false, |ref.pics| + 1)
  }

  lemma DerivedStrict(ref: PicSet, d: int, flags: seq<Flags>)
    requires WellFormed(ref) && |flags| == |ref.pics| + 1
    ensures Strict(DerivedNegative(ref, d, flags), false) && Strict(DerivedPositive(ref, d, flags), true)
  {
    var n, m := |ref.pics|, ref.negatives;
    OrdersInRange(m, n);
    OrdersMonotone(ref, d, flags);
    hide Strict, Collect, Descends, OrderS0, OrderS1;
    CollectStrict(ref.pics, d, flags, OrderS0(m, n), true, n + 1, false);
    CollectStrict(ref.pics, d, flags, OrderS1(m, n), false, n + 1, true);
  }

  // The two parts of the parsed set.
  lemma ParsedParts(ref: PicSet, d: int, flags: seq<Flags>)
    requires WellFormed(ref) && |flags| == |ref.pics| + 1
    ensures var r, s := FromInter(ref.pics, d, flags), Selected(ref.pics, d, flags, |flags|);
      && r.negatives <= |r.pics|
      && Strict(r.pics[..r.negatives], false) && Strict(r.pics[r.negatives..], true)
      && (forall x :: x in r.pics[..r.negatives] <==> x in s && x.delta < 0)
      && (forall x :: x in r.pics[r.negatives..] <==> x in s && x.delta >= 0)
  {
    hide SortPics, CountNegative, FlipHead, Strict, Selected, DistinctDeltas;
    SelectedDistinct(ref, d, flags, |flags|);
    SortedParts(Selected(ref.pics, d, flags, |flags|));
  }

  lemma NegativePartAgrees(ref: PicSet, d: int, flags: seq<Flags>)
    requires WellFormed(ref) && |flags| == |ref.pics| + 1
    ensures FromInter(ref.pics, d, flags).pics[..FromInter(ref.pics, d, flags).negatives]
            == DerivedNegative(ref, d, flags)
  {
    hide FromInter, Strict, Selected, DerivedNegative, WellFormed;
    DerivedIs(ref, d, flags);
    ParsedParts(ref, d, flags);
    DerivedStrict(ref, d, flags);
    var r := FromInter(ref.pics, d, flags);
    forall x ensures x in DerivedNegative(ref, d, flags) <==> x in r.pics[..r.negatives] {
      DerivedMembers(ref, d, flags, x);
    }
    StrictUnique(r.pics[..r.negatives], DerivedNegative(ref, d, flags), false);
  }

  lemma PositivePartAgrees(ref: PicSet, d: int, flags: seq<Flags>)
    requires WellFormed(ref) && |flags| == |ref.pics| + 1 && NoZero(ref.pics, d, flags)
    ensures FromInter(ref.pics, d, flags).pics[FromInter(ref.pics, d, flags).negatives..]
            == DerivedPositive(ref, d, flags)
  {
    hide FromInter, Strict, Selected, DerivedPositive, WellFormed, NoZero;
    DerivedIs(ref, d, flags);
    ParsedParts(ref, d, flags);
    DerivedStrict(ref, d, flags);
    ZeroSelected(ref, d, flags);
    var r := FromInter(ref.pics, d, flags);
    forall x ensures x in DerivedPositive(ref, d, flags) <==> x in r.pics[r.negatives..] {
      DerivedMembers(ref, d, flags, x);
    }
    StrictUnique(r.pics[r.negatives..], DerivedPositive(ref, d, flags), true);
  }

  // An inter-predicted set without a zero delta is ordered like every other set.
  lemma InterWellFormed(ref: PicSet, d: int, flags: seq<Flags>)
    requires WellFormed(ref) && |flags| == |ref.pics| + 1
    ensures WellFormed(FromInter(ref.pics, d, flags)) <==> NoZero(ref.pics, d, flags)
  {
    hide FromInter, Strict, Selected, WellFormed, NoZero;
    var s := Selected(ref.pics, d, flags, |flags|);
    ParsedParts(ref, d, flags);
    ZeroSelected(ref, d, flags);
    var r := FromInter(ref.pics, d, flags);
    PartsWellFormed(r);
    if !NoZero(ref.pics, d, flags) {
      var x: Pic :| x in s && x.delta == 0;
      assert x in r.pics[r.negatives..];
    } else {
      assert forall x :: x in r.pics[r.negatives..] ==> x.delta > 0;
    }
  }

  lemma PartsWellFormed(r: PicSet)
    requires r.negatives <= |r.pics|
    requires Strict(r.pics[..r.negatives], false) && Strict(r.pics[r.negatives..], true)
    requires forall x :: x in r.pics[..r.negatives] ==> x.delta < 0
    ensures WellFormed(r) <==> forall x :: x in r.pics[r.negatives..] ==> x.delta > 0
  {
    var k, a, b := r.negatives, r.pics[..r.negatives], r.pics[r.negatives..];
    assert forall i :: 0 <= i < k ==> a[i] == r.pics[i] && a[i] in a;
    forall i | k <= i < |r.pics| ensures b[i - k] == r.pics[i] && r.pics[i] in b {
      assert b[i - k] in b;
    }
  }

  lemma {:induction false} ReachGrows(steps: seq<Step>, i: nat, j: nat)
    requires i < j <= |steps|
    ensures Reach(steps, i) < Reach(steps, j)
  {
    if i + 1 < j {
      ReachGrows(steps, i, j - 1);
    }
  }

  lemma ExplicitWellFormed(neg: seq<Step>, pos: seq<Step>)
    ensures WellFormed(FromExplicit(neg, pos))
  {
    var r := FromExplicit(neg, pos);
    forall i, j | 0 <= i < j <= |neg| ensures Reach(neg, i) < Reach(neg, j) {
      ReachGrows(neg, i, j);
    }
    forall i, j | 0 <= i < j <= |pos| ensures Reach(pos, i) < Reach(pos, j) {
      ReachGrows(pos, i, j);
    }
  }

  // ----- The list of an SPS

  // The set before position i; the first one has none.
  ghost function Before(sets: seq<PicSet>): PicSet {
    if sets == [] then PicSet([], 0) else sets[|sets| - 1]
  }

  // The parsed sets: every inter-predicted set refers to the one before it.
  ghost function ParsedSets(xs: seq<SetSyntax>): (r: seq<PicSet>)
    ensures |r| == |xs|
  {
    if xs == [] then []
    else
      var before := ParsedSets(xs[..|xs| - 1]);
      before + [ParsedSet(xs[|xs| - 1], Before(before))]
  }

  ghost function ParsedSet(x: SetSyntax, ref: PicSet): PicSet {
    match x
    case Explicit(neg, pos) => FromExplicit(neg, pos)
    case Inter(sign, absMinus1, flags) => FromInter(ref.pics, DeltaRps(sign, absMinus1), flags)
  }

  // The syntax codes one pair of flags per candidate, and the first set is explicit.
  ghost predicate Legal(xs: seq<SetSyntax>)
    decreases |xs|
  {
    xs == [] ||
    (&& Legal(xs[..|xs| - 1])
     && (xs[|xs| - 1].Inter? ==>
           |xs| > 1 && |xs[|xs| - 1].flags| == |Before(ParsedSets(xs[..|xs| - 1])).pics| + 1))
  }

  // No inter-predicted set selects a candidate of delta 0.
  ghost predicate Clean(xs: seq<SetSyntax>)
    decreases |xs|
  {
    xs == [] ||
    (&& Clean(xs[..|xs| - 1])
     && match xs[|xs| - 1]
        case Explicit(_, _) => true
        case Inter(sign, absMinus1, flags) =>
          NoZero(Before(ParsedSets(xs[..|xs| - 1])).pics, DeltaRps(sign, absMinus1), flags))
  }

  ghost predicate AllGood(sets: seq<PicSet>) {
    forall i :: 0 <= i < |sets| ==> WellFormed(sets[i])
  }

  lemma AllGoodAppend(sets: seq<PicSet>, x: PicSet)
    ensures AllGood(sets + [x]) <==> AllGood(sets) && WellFormed(x)
  {
    var t := sets + [x];
    assert t[|sets|] == x;
    assert forall i :: 0 <= i < |sets| ==> t[i] == sets[i];
    if AllGood(t) {
      forall i | 0 <= i < |sets| ensures WellFormed(sets[i]) {
        assert WellFormed(t[i]);
      }
    }
  }

  // Over a whole list, all sets are well formed if and only if no set selects a zero delta.
  lemma {:induction false} AllWellFormed(xs: seq<SetSyntax>)
    requires Legal(xs)
    ensures Clean(xs) <==> AllGood(ParsedSets(xs))
    decreases |xs|
  {
    if xs != [] {
      var ys, x := xs[..|xs| - 1], xs[|xs| - 1];
      hide WellFormed, FromInter, FromExplicit, NoZero;
      AllWellFormed(ys);
      var before := ParsedSets(ys);
      AllGoodAppend(before, ParsedSet(x, Before(before)));
      match x
      case Explicit(neg, pos) => ExplicitWellFormed(neg, pos);
      case Inter(sign, absMinus1, flags) =>
        if Clean(ys) {
          InterWellFormed(Before(before), DeltaRps(sign, absMinus1), flags);
        }
    }
  }

  // ----- The deltas of a conforming list stay small

  // The ranges of the syntax elements: at most 16 coded pictures, distances of at most 15 bits.
  ghost predicate InRange(x: SetSyntax) {
    match x
    case Explicit(neg, pos) =>
      && |neg| <= 16 && |pos| <= 16
      && (forall i :: 0 <= i < |neg| ==> neg[i].minus1 < 0x8000)
      && (forall i :: 0 <= i < |pos| ==> pos[i].minus1 < 0x8000)
    case Inter(sign, absMinus1, flags) => absMinus1 < 0x8000
  }

  ghost predicate Within(s: seq<Pic>, bound: int) {
    forall x :: x in s ==> -bound <= x.delta <= bound
  }

  // The i-th set of a conforming list has deltas of at most 0x8000 * (16 + i): far from overflow.
  lemma {:induction false} DeltasStaySmall(xs: seq<SetSyntax>)
    requires forall i :: 0 <= i < |xs| ==> InRange(xs[i])
    ensures forall i :: 0 <= i < |xs| ==> Within(ParsedSets(xs)[i].pics, 0x8000 * (16 + i))
    decreases |xs|
  {
    hide Within, FromInter, FromExplicit;
    if xs != [] {
      var ys, x := xs[..|xs| - 1], xs[|xs| - 1];
      DeltasStaySmall(ys);
      var p := ParsedSets(ys);
      assert forall i :: 0 <= i < |ys| ==> ParsedSets(xs)[i] == p[i];
      match x
      case Explicit(neg, pos) => ExplicitWithin(neg, pos, 0x8000 * (16 + |ys|));
      case Inter(sign, absMinus1, flags) =>
        if ys == [] {
          EmptyWithin();
          InterWithin([], DeltaRps(sign, absMinus1), flags, 0x8000 * 15);
        } else {
          InterWithin(Before(p).pics, DeltaRps(sign, absMinus1), flags, 0x8000 * (15 + |ys|));
        }
    }
  }

  lemma EmptyWithin()
    ensures Within([], 0x8000 * 15)
  {
  }

  lemma {:induction false} ReachBound(steps: seq<Step>, n: nat)
    requires n <= |steps| && forall i :: 0 <= i < |steps| ==> steps[i].minus1 < 0x8000
    ensures Reach(steps, n) <= 0x8000 * n
  {
    if n > 0 {
      ReachBound(steps, n - 1);
    }
  }

  lemma ExplicitWithin(neg: seq<Step>, pos: seq<Step>, bound: int)
    requires InRange(Explicit(neg, pos)) && bound >= 0x8000 * 16
    ensures Within(FromExplicit(neg, pos).pics, bound)
  {
    forall i | 0 <= i <= |neg| ensures Reach(neg, i) <= 0x8000 * 16 {
      ReachBound(neg, i);
    }
    forall i | 0 <= i <= |pos| ensures Reach(pos, i) <= 0x8000 * 16 {
      ReachBound(pos, i);
    }
  }

  lemma SelectedWithin(ref: seq<Pic>, d: int, flags: seq<Flags>, bound: int)
    requires Within(ref, bound) && -0x8000 <= d <= 0x8000 && bound >= 0
    ensures Within(Selected(ref, d, flags, |flags|), bound + 0x8000)
  {
    var s := Selected(ref, d, flags, |flags|);
    SelectedMembers(ref, d, flags, |flags|);
    hide Selected;
    forall x | x in s ensures -(bound + 0x8000) <= x.delta <= bound + 0x8000 {
      var j :| 0 <= j < |flags| && flags[j].Selected() && Candidate(ref, d, flags, j) == x;
      assert j < |ref| ==> ref[j] in ref;
    }
  }

  lemma InterWithin(ref: seq<Pic>, d: int, flags: seq<Flags>, bound: int)
    requires Within(ref, bound) && -0x8000 <= d <= 0x8000 && bound >= 0
    ensures Within(FromInter(ref, d, flags).pics, bound + 0x8000)
  {
    var s := Selected(ref, d, flags, |flags|);
    SelectedWithin(ref, d, flags, bound);
    hide Selected, SortPics, CountNegative;
    SortPicsSorts(s);
    SameMembers(s, SortPics(s));
    var r := FromInter(ref, d, flags);
    forall x | x in r.pics ensures x in s {
      var i :| 0 <= i < |r.pics| && r.pics[i] == x;
      assert SortPics(s)[if i < r.negatives then r.negatives - 1 - i else i] in SortPics(s);
    }
  }
}
