// Short-term reference picture sets: what a coded set stands for, and the derivation of section 7.4.8 of
// H.265 it has to agree with.
module RefPicSets {
  import opened Sequences

  // A picture of a set: its POC delta and whether the current picture uses it.
  datatype Pic = Pic(delta: int, used: bool)

  // A set: its first `negatives` pictures precede the current one.
  datatype PicSet = PicSet(pics: seq<Pic>, negatives: nat)

  // The flags of one candidate of an inter-predicted set.
  datatype Flags = Flags(usedByCurr: bool, useDelta: bool) {
    // used_by_curr_pic_flag implies use_delta_flag, which is then not coded.
    predicate Selected() { usedByCurr || useDelta }
  }

  // Negative deltas first, strictly decreasing, then positive deltas, strictly increasing.
  ghost predicate WellFormed(s: PicSet) {
    && s.negatives <= |s.pics|
    && (forall i :: 0 <= i < s.negatives ==> s.pics[i].delta < 0)
    && (forall i :: s.negatives <= i < |s.pics| ==> s.pics[i].delta > 0)
    && (forall i, j :: 0 <= i < j < s.negatives ==> s.pics[i].delta > s.pics[j].delta)
    && (forall i, j :: s.negatives <= i < j < |s.pics| ==> s.pics[i].delta < s.pics[j].delta)
  }

  // ----- Sorting by delta

  function InsertPic(s: seq<Pic>, x: Pic): (r: seq<Pic>)
    ensures |r| == |s| + 1
  {
    if s == [] || s[|s| - 1].delta <= x.delta then s + [x]
    else InsertPic(s[..|s| - 1], x) + [s[|s| - 1]]
  }

  function SortPics(s: seq<Pic>): (r: seq<Pic>)
    ensures |r| == |s|
  {
    if s == [] then [] else InsertPic(SortPics(s[..|s| - 1]), s[|s| - 1])
  }

  // The first n entries in reverse.
  function FlipHead(s: seq<Pic>, n: nat): (r: seq<Pic>)
    requires n <= |s|
    ensures |r| == |s|
    ensures forall i :: 0 <= i < |s| ==> r[i] == if i < n then s[n - 1 - i] else s[i]
  {
    seq(|s|, i requires 0 <= i < |s| => if i < n then s[n - 1 - i] else s[i])
  }

  ghost predicate Ascending(s: seq<Pic>) {
    forall i, j :: 0 <= i < j < |s| ==> s[i].delta <= s[j].delta
  }

  ghost predicate DistinctDeltas(s: seq<Pic>) {
    forall i, j :: 0 <= i < j < |s| ==> s[i].delta != s[j].delta
  }

  lemma {:induction false} InsertPicSplits(s: seq<Pic>, x: Pic, p: nat)
    requires p <= |s|
    requires p == 0 || s[p - 1].delta <= x.delta
    requires forall j :: p <= j < |s| ==> s[j].delta > x.delta
    ensures InsertPic(s, x) == s[..p] + [x] + s[p..]
  {
    if p < |s| {
      var t := s[..|s| - 1];
      InsertPicSplits(t, x, p);
      assert t[..p] == s[..p] && s[p..] == t[p..] + [s[|s| - 1]];
    }
  }

  lemma InsertPicPlace(s: seq<Pic>, x: Pic) returns (p: nat)
    requires Ascending(s)
    ensures p <= |s| && InsertPic(s, x) == s[..p] + [x] + s[p..]
    ensures forall j :: 0 <= j < p ==> s[j].delta <= x.delta
    ensures forall j :: p <= j < |s| ==> s[j].delta > x.delta
  {
    p := |s|;
    while p > 0 && s[p - 1].delta > x.delta
      invariant p <= |s|
      invariant forall j :: p <= j < |s| ==> s[j].delta > x.delta
    {
      p := p - 1;
    }
    InsertPicSplits(s, x, p);
  }

  // Inserting into an ascending list keeps it ascending and adds just the new entry.
  lemma InsertPicKeeps(s: seq<Pic>, x: Pic)
    requires Ascending(s)
    ensures Ascending(InsertPic(s, x))
    ensures multiset(InsertPic(s, x)) == multiset(s) + multiset{x}
  {
    hide InsertPic;
    var p := InsertPicPlace(s, x);
    MultisetInsert(s, x, p);
  }

  lemma {:induction false} SortPicsSorts(s: seq<Pic>)
    ensures Ascending(SortPics(s)) && multiset(SortPics(s)) == multiset(s)
  {
    if s != [] {
      SortPicsSorts(s[..|s| - 1]);
      InsertPicKeeps(SortPics(s[..|s| - 1]), s[|s| - 1]);
      assert s == s[..|s| - 1] + [s[|s| - 1]];
    }
  }

  // ----- Coded sets

  // One explicitly coded picture: the distance to its neighbour minus 1, and the used flag.
  datatype Step = Step(minus1: nat, used: bool)

  datatype SetSyntax =
    | Explicit(neg: seq<Step>, pos: seq<Step>)
    | Inter(sign: bool, absMinus1: nat, flags: seq<Flags>)

  // The sum of the first n distances.
  function Reach(steps: seq<Step>, n: nat): nat
    requires n <= |steps|
  {
    if n == 0 then 0 else Reach(steps, n - 1) + steps[n - 1].minus1 + 1
  }

  // The pictures on one side of the current one.
  function OneSide(steps: seq<Step>, negative: bool): (s: seq<Pic>)
    ensures |s| == |steps|
    ensures forall i :: 0 <= i < |s| ==> s[i] == Pic(Signed(Reach(steps, i + 1), negative), steps[i].used)
  {
    seq(|steps|, i requires 0 <= i < |steps| => Pic(Signed(Reach(steps, i + 1), negative), steps[i].used))
  }

  function Signed(n: nat, negative: bool): int {
    if negative then 0 - n else n
  }

  function FromExplicit(neg: seq<Step>, pos: seq<Step>): (r: PicSet)
    ensures |r.pics| == |neg| + |pos| && r.negatives == |neg|
  {
    PicSet(OneSide(neg, true) + OneSide(pos, false), |neg|)
  }

  function DeltaRps(sign: bool, absMinus1: nat): int {
    if sign then -(absMinus1 + 1) else absMinus1 + 1
  }

  // The j-th candidate of an inter-predicted set: a picture of the reference set moved by d, or, behind
  // them, the reference picture itself.
  function Candidate(ref: seq<Pic>, d: int, flags: seq<Flags>, j: nat): Pic
    requires j < |flags|
  {
    Pic((if j < |ref| then ref[j].delta else 0) + d, flags[j].usedByCurr)
  }

  // The selected candidates in coding order.
  function Selected(ref: seq<Pic>, d: int, flags: seq<Flags>, n: nat): (r: seq<Pic>)
    requires n <= |flags|
    ensures |r| <= n
  {
    if n == 0 then []
    else Selected(ref, d, flags, n - 1) +
         (if flags[n - 1].Selected() then [Candidate(ref, d, flags, n - 1)] else [])
  }

  function CountNegative(s: seq<Pic>): (n: nat)
    ensures n <= |s|
  {
    if s == [] then 0
    else CountNegative(s[..|s| - 1]) + (if s[|s| - 1].delta < 0 then 1 else 0)
  }

  function FromInter(ref: seq<Pic>, d: int, flags: seq<Flags>): PicSet {
    var s := Selected(ref, d, flags, |flags|);
    PicSet(FlipHead(SortPics(s), CountNegative(s)), CountNegative(s))
  }

  // ----- The derivation of section 7.4.8

  // The candidates in the order in which the derivation visits them for the negative deltas: positive
  // reference pictures backwards, the reference itself, negative reference pictures forwards.
  function OrderS0(m: nat, n: nat): (r: seq<nat>)
    requires m <= n
    ensures |r| == n + 1
  {
    seq(n + 1, i requires 0 <= i <= n =>
      if i < n - m then n - 1 - i else if i == n - m then n else i - (n - m) - 1)
  }

  // And for the positive deltas.
  function OrderS1(m: nat, n: nat): (r: seq<nat>)
    requires m <= n
    ensures |r| == n + 1
  {
    seq(n + 1, i requires 0 <= i <= n =>
      if i < m then m - 1 - i else if i == m then n else i - 1)
  }

  predicate Wanted(x: Pic, negative: bool) {
    if negative then x.delta < 0 else x.delta > 0
  }

  // The selected candidates of the wanted sign, in a given order, the first k of it.
  function Collect(ref: seq<Pic>, d: int, flags: seq<Flags>, order: seq<nat>, negative: bool, k: nat): seq<Pic>
    requires k <= |order| && forall i :: 0 <= i < |order| ==> order[i] < |flags|
  {
    if k == 0 then []
    else
      var x := Candidate(ref, d, flags, order[k - 1]);
      Collect(ref, d, flags, order, negative, k - 1) +
      (if flags[order[k - 1]].Selected() && Wanted(x, negative) then [x] else [])
  }

  function Derived(ref: PicSet, d: int, flags: seq<Flags>): PicSet
    requires ref.negatives <= |ref.pics| && |flags| == |ref.pics| + 1
  {
    var n := |ref.pics|;
    var s0 := Collect(ref.pics, d, flags, OrderS0(ref.negatives, n), true, n + 1);
    var s1 := Collect(ref.pics, d, flags, OrderS1(ref.negatives, n), false, n + 1);
    PicSet(s0 + s1, |s0|)
  }

  // No selected candidate coincides with the current picture.
  ghost predicate NoZero(ref: seq<Pic>, d: int, flags: seq<Flags>) {
    forall j :: 0 <= j < |flags| && flags[j].Selected() ==> Candidate(ref, d, flags, j).delta != 0
  }
}
