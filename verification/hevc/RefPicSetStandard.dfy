// The semantics of short-term reference picture sets as section 7.4.8 of H.265 states them, and what the parsed sets
// have to do with them.
module RefPicSetStandard {
  import opened RefPicSets
  import opened RefPicSetProofs

  // DeltaPocS0 with UsedByCurrPicS0, and DeltaPocS1 with UsedByCurrPicS1.
  datatype Rps = Rps(s0: seq<Pic>, s1: seq<Pic>)

  // deltaRps, from delta_rps_sign and abs_delta_rps_minus1.
  function SignedDistance(sign: nat, absMinus1: nat): int {
    (1 - 2 * sign) * (absMinus1 + 1)
  }

  // use_delta_flag: inferred to be 1 where it is not coded, that is, behind a used_by_curr_pic_flag of 1.
  function UseDeltaFlag(f: Flags): bool {
    if f.usedByCurr then true else f.useDelta
  }

  // What a picture, moved to dPoc, adds to the list of the negative or of the positive deltas.
  function Kept(dPoc: int, f: Flags, negative: bool): seq<Pic> {
    if (if negative then dPoc < 0 else dPoc > 0) && UseDeltaFlag(f) then [Pic(dPoc, f.usedByCurr)] else []
  }

  // The first k steps of a loop over a list from its end; its pictures have the flags from `first` on.
  function Backwards(s: seq<Pic>, first: nat, d: int, flags: seq<Flags>, negative: bool, k: nat): seq<Pic>
    requires k <= |s| && first + |s| <= |flags|
  {
    if k == 0 then []
    else
      var j := |s| - k;
      Backwards(s, first, d, flags, negative, k - 1) + Kept(s[j].delta + d, flags[first + j], negative)
  }

  // And of a loop from its start.
  function Forwards(s: seq<Pic>, first: nat, d: int, flags: seq<Flags>, negative: bool, k: nat): seq<Pic>
    requires k <= |s| && first + |s| <= |flags|
  {
    if k == 0 then []
    else
      Forwards(s, first, d, flags, negative, k - 1) + Kept(s[k - 1].delta + d, flags[first + k - 1], negative)
  }

  // Equations 7-61 and 7-62.
  function InterPredicted(ref: Rps, d: int, flags: seq<Flags>): Rps
    requires |flags| == |ref.s0| + |ref.s1| + 1
  {
    var n0, n1 := |ref.s0|, |ref.s1|;
    var own := flags[n0 + n1];
    Rps(Backwards(ref.s1, n0, d, flags, true, n1) + Kept(d, own, true) + Forwards(ref.s0, 0, d, flags, true, n0),
        Backwards(ref.s0, 0, d, flags, false, n0) + Kept(d, own, false) + Forwards(ref.s1, n0, d, flags, false, n1))
  }

  // Equations 7-63 to 7-66: every delta is the one before it, less or more the coded distance.
  function Explicitly(steps: seq<Step>, sign: int, n: nat): (s: seq<Pic>)
    requires n <= |steps|
    ensures |s| == n
  {
    if n == 0 then []
    else
      var before := Explicitly(steps, sign, n - 1);
      before + [Pic((if n == 1 then 0 else before[n - 2].delta) + sign * (steps[n - 1].minus1 + 1), steps[n - 1].used)]
  }

  // The sets of a list; an inter-predicted set refers to the one before it.
  ghost function DerivedSets(xs: seq<SetSyntax>): (r: seq<Rps>)
    ensures |r| == |xs|
  {
    if xs == [] then []
    else
      var before := DerivedSets(xs[..|xs| - 1]);
      before + [DerivedSet(xs[|xs| - 1], Last(before))]
  }

  ghost function Last(sets: seq<Rps>): Rps {
    if sets == [] then Rps([], []) else sets[|sets| - 1]
  }

  ghost function DerivedSet(x: SetSyntax, ref: Rps): Rps {
    match x
    case Explicit(neg, pos) => Rps(Explicitly(neg, -1, |neg|), Explicitly(pos, 1, |pos|))
    case Inter(sign, absMinus1, flags) =>
      if |flags| == |ref.s0| + |ref.s1| + 1
      then InterPredicted(ref, SignedDistance(if sign then 1 else 0, absMinus1), flags) else Rps([], [])
  }

  // No picture that the flags keep is moved onto the current picture.
  ghost predicate NothingAtZero(ref: Rps, d: int, flags: seq<Flags>)
    requires |flags| == |ref.s0| + |ref.s1| + 1
  {
    (forall j :: 0 <= j < |ref.s0| && ref.s0[j].delta == -d ==> !UseDeltaFlag(flags[j])) &&
    (forall j :: 0 <= j < |ref.s1| && ref.s1[j].delta == -d ==> !UseDeltaFlag(flags[|ref.s0| + j]))
  }

  // In the sets that the standard derives.
  ghost predicate NothingAtZeroIn(xs: seq<SetSyntax>)
    decreases |xs|
  {
    xs == [] ||
    (&& NothingAtZeroIn(xs[..|xs| - 1])
     && match xs[|xs| - 1]
        case Explicit(_, _) => true
        case Inter(sign, absMinus1, flags) =>
          var ref := Last(DerivedSets(xs[..|xs| - 1]));
          |flags| == |ref.s0| + |ref.s1| + 1 ==>
            NothingAtZero(ref, SignedDistance(if sign then 1 else 0, absMinus1), flags))
  }

  // A parsed set as the two lists of the standard.
  ghost function AsRps(s: PicSet): Rps {
    if s.negatives <= |s.pics| then Rps(s.pics[..s.negatives], s.pics[s.negatives..]) else Rps([], [])
  }

  // ----- The words of the parser

  lemma SameDistance(sign: bool, absMinus1: nat)
    ensures DeltaRps(sign, absMinus1) == SignedDistance(if sign then 1 else 0, absMinus1) != 0
  {
  }

  lemma SameSelection(f: Flags)
    ensures f.Selected() <==> UseDeltaFlag(f)
  {
  }

  lemma {:induction false} ReachIsRunning(steps: seq<Step>, sign: int, n: nat)
    requires n <= |steps| && (sign == 1 || sign == -1)
    ensures forall i :: 0 <= i < n ==> Explicitly(steps, sign, n)[i] == Pic(sign * Reach(steps, i + 1), steps[i].used)
  {
    if n > 0 {
      ReachIsRunning(steps, sign, n - 1);
    }
  }

  // Explicitly coded sets are those of the standard.
  lemma ExplicitIsDerived(neg: seq<Step>, pos: seq<Step>)
    ensures AsRps(FromExplicit(neg, pos)) == Rps(Explicitly(neg, -1, |neg|), Explicitly(pos, 1, |pos|))
  {
    hide Explicitly, OneSide;
    SameSide(neg, true);
    SameSide(pos, false);
    assert (OneSide(neg, true) + OneSide(pos, false))[..|neg|] == OneSide(neg, true);
    assert (OneSide(neg, true) + OneSide(pos, false))[|neg|..] == OneSide(pos, false);
  }

  lemma SameSide(steps: seq<Step>, negative: bool)
    ensures OneSide(steps, negative) == Explicitly(steps, if negative then -1 else 1, |steps|)
  {
    ReachIsRunning(steps, if negative then -1 else 1, |steps|);
    hide Explicitly, Reach;
  }

  // ----- The orders in which the candidates are visited

  lemma CollectStep(ref: seq<Pic>, d: int, flags: seq<Flags>, order: seq<nat>, negative: bool, k: nat)
    requires k < |order| && forall i :: 0 <= i < |order| ==> order[i] < |flags|
    ensures Collect(ref, d, flags, order, negative, 0) == []
    ensures var j := order[k];
      Collect(ref, d, flags, order, negative, k + 1) ==
      Collect(ref, d, flags, order, negative, k) +
        Kept((if j < |ref| then ref[j].delta else 0) + d, flags[j], negative)
  {
  }

  // A part of the visiting order runs backwards through a list.
  lemma {:induction false} CollectBackwards(all: seq<Pic>, s: seq<Pic>, first: nat, d: int, flags: seq<Flags>,
                                            order: seq<nat>, negative: bool, k: nat)
    requires (forall i :: 0 <= i < |order| ==> order[i] < |flags|) && first + |s| <= |all| < |flags|
    requires s == all[first..first + |s|] && k <= |s| <= |order|
    requires forall i :: 0 <= i < |s| ==> order[i] == first + |s| - 1 - i
    ensures Collect(all, d, flags, order, negative, k) == Backwards(s, first, d, flags, negative, k)
  {
    hide Collect, Kept;
    if k > 0 {
      CollectBackwards(all, s, first, d, flags, order, negative, k - 1);
      CollectStep(all, d, flags, order, negative, k - 1);
      assert order[k - 1] == first + (|s| - k) && all[first + (|s| - k)] == s[|s| - k];
    } else {
      NothingCollected(all, d, flags, order, negative);
    }
  }

  lemma NothingCollected(all: seq<Pic>, d: int, flags: seq<Flags>, order: seq<nat>, negative: bool)
    requires forall i :: 0 <= i < |order| ==> order[i] < |flags|
    ensures Collect(all, d, flags, order, negative, 0) == []
  {
  }

  // And another part, behind m others, forwards.
  lemma {:induction false} CollectForwards(all: seq<Pic>, s: seq<Pic>, first: nat, d: int, flags: seq<Flags>,
                                           order: seq<nat>, m: nat, negative: bool, k: nat)
    requires (forall i :: 0 <= i < |order| ==> order[i] < |flags|) && first + |s| <= |all| < |flags|
    requires s == all[first..first + |s|] && k <= |s| && m + |s| <= |order|
    requires forall i :: m <= i < m + |s| ==> order[i] == first + (i - m)
    ensures Collect(all, d, flags, order, negative, m + k) ==
            Collect(all, d, flags, order, negative, m) + Forwards(s, first, d, flags, negative, k)
  {
    hide Collect, Kept;
    if k > 0 {
      CollectForwards(all, s, first, d, flags, order, m, negative, k - 1);
      CollectStep(all, d, flags, order, negative, m + k - 1);
      assert order[m + (k - 1)] == first + (k - 1) && all[first + (k - 1)] == s[k - 1];
    }
  }

  // An order that runs backwards through one part of the reference set, visits the set itself, and runs forwards through
  // the other part.
  lemma CollectThree(all: seq<Pic>, back: seq<Pic>, first: nat, forth: seq<Pic>, start: nat, d: int, flags: seq<Flags>,
                     order: seq<nat>, negative: bool)
    requires |flags| == |all| + 1 == |order| == |back| + |forth| + 1
    requires first + |back| <= |all| && back == all[first..first + |back|]
    requires start + |forth| <= |all| && forth == all[start..start + |forth|]
    requires forall i :: 0 <= i < |order| ==> order[i] < |flags|
    requires forall i :: 0 <= i < |back| ==> order[i] == first + |back| - 1 - i
    requires order[|back|] == |all|
    requires forall i :: |back| + 1 <= i < |order| ==> order[i] == start + (i - |back| - 1)
    ensures Collect(all, d, flags, order, negative, |order|) ==
            Backwards(back, first, d, flags, negative, |back|) + Kept(d, flags[|all|], negative) +
            Forwards(forth, start, d, flags, negative, |forth|)
  {
    hide Collect, Kept, Backwards, Forwards;
    CollectBackwards(all, back, first, d, flags, order, negative, |back|);
    CollectStep(all, d, flags, order, negative, |back|);
    CollectForwards(all, forth, start, d, flags, order, |back| + 1, negative, |forth|);
  }

  lemma NegativeIsDerived(ref: PicSet, d: int, flags: seq<Flags>)
    requires ref.negatives <= |ref.pics| && |flags| == |ref.pics| + 1
    ensures DerivedNegative(ref, d, flags) == InterPredicted(AsRps(ref), d, flags).s0
  {
    var m, n := ref.negatives, |ref.pics|;
    hide Collect, Backwards, Forwards, Kept;
    assert ref.pics[0..m] == ref.pics[..m] && ref.pics[m..n] == ref.pics[m..];
    assert |OrderS0(m, n)| == n + 1;
    CollectThree(ref.pics, ref.pics[m..], m, ref.pics[..m], 0, d, flags, OrderS0(m, n), true);
  }

  lemma PositiveIsDerived(ref: PicSet, d: int, flags: seq<Flags>)
    requires ref.negatives <= |ref.pics| && |flags| == |ref.pics| + 1
    ensures DerivedPositive(ref, d, flags) == InterPredicted(AsRps(ref), d, flags).s1
  {
    var m, n := ref.negatives, |ref.pics|;
    hide Collect, Backwards, Forwards, Kept;
    assert ref.pics[0..m] == ref.pics[..m] && ref.pics[m..n] == ref.pics[m..];
    assert |OrderS1(m, n)| == n + 1;
    CollectThree(ref.pics, ref.pics[..m], 0, ref.pics[m..], m, d, flags, OrderS1(m, n), false);
  }

  // ----- Main results

  lemma ZeroIsZero(ref: PicSet, sign: bool, absMinus1: nat, flags: seq<Flags>)
    requires ref.negatives <= |ref.pics| && |flags| == |ref.pics| + 1
    ensures NoZero(ref.pics, DeltaRps(sign, absMinus1), flags) <==>
            NothingAtZero(AsRps(ref), SignedDistance(if sign then 1 else 0, absMinus1), flags)
  {
    var d, s := DeltaRps(sign, absMinus1), AsRps(ref);
    SameDistance(sign, absMinus1);
    hide DeltaRps, SignedDistance;
    forall j | 0 <= j < |flags|
      ensures flags[j].Selected() <==> UseDeltaFlag(flags[j])
    {
      SameSelection(flags[j]);
    }
    forall j | 0 <= j < |ref.pics|
      ensures ref.pics[j] == if j < |s.s0| then s.s0[j] else s.s1[j - |s.s0|]
      ensures j >= |s.s0| ==> |s.s0| + (j - |s.s0|) == j
    {
    }
    if NothingAtZero(s, d, flags) {
      forall j | 0 <= j < |flags| && flags[j].Selected()
        ensures Candidate(ref.pics, d, flags, j).delta != 0
      {
        if |s.s0| <= j < |ref.pics| {
          assert s.s1[j - |s.s0|] == ref.pics[j];
        }
      }
    }
    if NoZero(ref.pics, d, flags) {
      forall j | 0 <= j < |s.s0| && s.s0[j].delta == -d
        ensures !UseDeltaFlag(flags[j])
      {
        assert ref.pics[j] == s.s0[j] && Candidate(ref.pics, d, flags, j).delta == 0;
      }
      forall j | 0 <= j < |s.s1| && s.s1[j].delta == -d
        ensures !UseDeltaFlag(flags[|s.s0| + j])
      {
        assert ref.pics[|s.s0| + j] == s.s1[j] && Candidate(ref.pics, d, flags, |s.s0| + j).delta == 0;
      }
    }
  }

  // An inter-predicted set is that of the standard if and only if no kept picture is moved onto the current one.
  lemma InterIsDerived(ref: PicSet, sign: bool, absMinus1: nat, flags: seq<Flags>)
    requires WellFormed(ref) && |flags| == |ref.pics| + 1
    ensures ref.negatives <= |ref.pics|
    ensures var d := SignedDistance(if sign then 1 else 0, absMinus1);
      AsRps(FromInter(ref.pics, DeltaRps(sign, absMinus1), flags)) == InterPredicted(AsRps(ref), d, flags) <==>
      NothingAtZero(AsRps(ref), d, flags)
  {
    var e := DeltaRps(sign, absMinus1);
    hide FromInter, InterPredicted, NothingAtZero, WellFormed, NoZero, AsRps, DeltaRps, SignedDistance,
         DerivedNegative, DerivedPositive, Derived;
    DerivedIs(ref, e, flags);
    SameDistance(sign, absMinus1);
    ZeroIsZero(ref, sign, absMinus1, flags);
    InterAgrees(ref, e, flags);
    NegativeIsDerived(ref, e, flags);
    PositiveIsDerived(ref, e, flags);
    PartsOf(FromInter(ref.pics, e, flags), DerivedNegative(ref, e, flags), DerivedPositive(ref, e, flags));
    ParsedParts(ref, e, flags);
  }

  lemma PartsOf(r: PicSet, s0: seq<Pic>, s1: seq<Pic>)
    ensures r.negatives <= |r.pics| ==> (AsRps(r) == Rps(s0, s1) <==> r == PicSet(s0 + s1, |s0|))
  {
    if r.negatives <= |r.pics| {
      assert r.pics == r.pics[..r.negatives] + r.pics[r.negatives..];
    }
    assert (s0 + s1)[..|s0|] == s0 && (s0 + s1)[|s0|..] == s1;
  }

  ghost predicate AllDerived(sets: seq<PicSet>, derived: seq<Rps>) {
    |sets| == |derived| && forall i :: 0 <= i < |sets| ==> AsRps(sets[i]) == derived[i]
  }

  lemma DerivedAppend(sets: seq<PicSet>, derived: seq<Rps>, x: PicSet, r: Rps)
    requires |sets| == |derived|
    ensures AllDerived(sets + [x], derived + [r]) <==> AllDerived(sets, derived) && AsRps(x) == r
  {
    hide AsRps;
    var t, u := sets + [x], derived + [r];
    assert t[|sets|] == x && u[|sets|] == r;
    assert forall i :: 0 <= i < |sets| ==> t[i] == sets[i] && u[i] == derived[i];
    if AllDerived(t, u) {
      forall i | 0 <= i < |sets|
        ensures AsRps(sets[i]) == derived[i]
      {
        assert AsRps(t[i]) == u[i];
      }
    }
  }

  // Over a whole list, the parsed sets are those of the standard if and only if no set keeps a picture that it moves
  // onto the current one.
  lemma {:induction false} ListIsDerived(xs: seq<SetSyntax>)
    requires Legal(xs)
    ensures AllDerived(ParsedSets(xs), DerivedSets(xs)) <==> NothingAtZeroIn(xs)
    ensures Clean(xs) <==> NothingAtZeroIn(xs)
    decreases |xs|
  {
    hide WellFormed, FromInter, FromExplicit, NoZero, InterPredicted, NothingAtZero, AsRps, AllDerived, Explicitly;
    if xs == [] {
      NothingDerived();
    } else {
      var ys, x := xs[..|xs| - 1], xs[|xs| - 1];
      ListIsDerived(ys);
      var p, q := ParsedSets(ys), DerivedSets(ys);
      DerivedAppend(p, q, ParsedSet(x, Before(p)), DerivedSet(x, Last(q)));
      if Clean(ys) {
        LastDerived(p, q);
        match x
        case Explicit(neg, pos) =>
          ExplicitIsDerived(neg, pos);
        case Inter(sign, absMinus1, flags) =>
          AllWellFormed(ys);
          ReferenceIsGood(ys);
          PartSizes(Before(p));
          InterIsDerived(Before(p), sign, absMinus1, flags);
          ZeroIsZero(Before(p), sign, absMinus1, flags);
      }
    }
  }

  lemma NothingDerived()
    ensures AllDerived([], [])
  {
  }

  lemma LastDerived(p: seq<PicSet>, q: seq<Rps>)
    requires AllDerived(p, q)
    ensures AsRps(Before(p)) == Last(q)
  {
  }

  lemma ReferenceIsGood(xs: seq<SetSyntax>)
    requires AllGood(ParsedSets(xs))
    ensures WellFormed(Before(ParsedSets(xs)))
  {
  }

  lemma PartSizes(s: PicSet)
    requires WellFormed(s)
    ensures s.negatives <= |s.pics| && |AsRps(s).s0| + |AsRps(s).s1| == |s.pics|
  {
  }

  // A list for which the two differ: the second set moves the only picture of the first one, at -1, by +1.
  lemma ZeroDeltaDiffers()
    ensures var xs := [Explicit([Step(0, true)], []), Inter(false, 0, [Flags(true, true), Flags(false, false)])];
      Legal(xs) && !NothingAtZeroIn(xs) && AsRps(ParsedSets(xs)[1]) != DerivedSets(xs)[1]
  {
    hide FromExplicit, FromInter, InterPredicted, WellFormed, OneSide, Explicitly, Legal, NothingAtZeroIn, NothingAtZero,
         ParsedSets, DerivedSets, AsRps;
    var step, flags := [Step(0, true)], [Flags(true, true), Flags(false, false)];
    var e, x := Explicit(step, []), Inter(false, 0, flags);
    var ref := FromExplicit(step, []);
    FirstSet(e, ref, step);
    MovedToZero(ref, flags);
    InterIsDerived(ref, false, 0, flags);
    SecondSet(e, x, ref);
  }

  lemma MovedToZero(ref: PicSet, flags: seq<Flags>)
    requires ref == PicSet([Pic(-1, true)], 1) && flags == [Flags(true, true), Flags(false, false)]
    ensures |AsRps(ref).s0| + |AsRps(ref).s1| == 1 && !NothingAtZero(AsRps(ref), 1, flags)
  {
    assert AsRps(ref).s0[0].delta == -1 && UseDeltaFlag(flags[0]);
  }

  lemma FirstSet(e: SetSyntax, ref: PicSet, step: seq<Step>)
    requires step == [Step(0, true)] && e == Explicit(step, []) && ref == FromExplicit(step, [])
    ensures ref == PicSet([Pic(-1, true)], 1) && WellFormed(ref)
    ensures ParsedSets([e]) == [ref] && DerivedSets([e]) == [AsRps(ref)]
  {
    assert [e][..0] == [];
    ExplicitIsDerived(step, []);
    assert Reach(step, 1) == 1;
    assert ref.pics == [Pic(-1, true)];
  }

  // A list of two sets, the second one predicted from the first.
  lemma SecondSet(e: SetSyntax, x: SetSyntax, ref: PicSet)
    requires e.Explicit? && x.Inter? && |x.flags| == |ref.pics| + 1 == |AsRps(ref).s0| + |AsRps(ref).s1| + 1
    requires ParsedSets([e]) == [ref] && DerivedSets([e]) == [AsRps(ref)]
    ensures Legal([e, x])
    ensures NothingAtZeroIn([e, x]) ==>
              NothingAtZero(AsRps(ref), SignedDistance(if x.sign then 1 else 0, x.absMinus1), x.flags)
    ensures ParsedSets([e, x])[1] == ParsedSet(x, ref) && DerivedSets([e, x])[1] == DerivedSet(x, AsRps(ref))
  {
    hide ParsedSet, DerivedSet, AsRps, NothingAtZero;
    assert [e, x][..1] == [e] && [e][..0] == [];
    assert Legal([]);
    assert Legal([e]);
  }
}
