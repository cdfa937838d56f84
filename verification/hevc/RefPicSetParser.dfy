// The reference picture sets of an SPS: their bits, and the parser that reads and sorts them in place.
module RefPicSetParser {
  import opened Bits
  import opened ExpGolomb
  import opened BitReader
  import opened RefPicSets
  import opened RefPicSetProofs
  import opened RefPicSetStandard

  lemma SortOne(x: Pic)
    ensures SortPics([x]) == [x]
  {
    assert [x][..0] == [];
  }

  // The first n entries when j of them at each end have been exchanged.
  function FlippedEnds(s: seq<Pic>, n: nat, j: nat): (r: seq<Pic>)
    requires n <= |s| && 2 * j <= n
    ensures |r| == |s|
    ensures forall i :: 0 <= i < |s| ==> r[i] == if i < j || n - j <= i < n then s[n - 1 - i] else s[i]
  {
    seq(|s|, i requires 0 <= i < |s| => if i < j || n - j <= i < n then s[n - 1 - i] else s[i])
  }

  lemma FlipBegins(s: seq<Pic>, n: nat)
    requires n <= |s|
    ensures FlippedEnds(s, n, 0) == s
  {
  }

  lemma FlipStep(s: seq<Pic>, n: nat, j: nat)
    requires n <= |s| && 2 * j + 2 <= n
    ensures var f, k := FlippedEnds(s, n, j), n - 1 - j;
      FlippedEnds(s, n, j + 1) == f[j := f[k]][k := f[j]]
  {
  }

  lemma FlipEnds(s: seq<Pic>, n: nat, j: nat)
    requires n <= |s| && 2 * j <= n <= 2 * j + 1
    ensures FlippedEnds(s, n, j) == FlipHead(s, n)
  {
  }

  // The pictures while x, which follows s, is at place p; behind them come others.
  function Moved(s: seq<Pic>, x: Pic, p: nat, tail: seq<Pic>): (r: seq<Pic>)
    requires p <= |s|
    ensures |r| == |s| + 1 + |tail|
    ensures forall i :: 0 <= i < |r| ==>
              r[i] == if i < p then s[i] else if i == p then x else if i <= |s| then s[i - 1] else tail[i - |s| - 1]
  {
    s[..p] + [x] + s[p..] + tail
  }

  lemma MoveBegins(all: seq<Pic>, j: nat)
    requires j < |all|
    ensures Moved(all[..j], all[j], j, all[j + 1..]) == all
  {
  }

  // An entry in front of the place of x moves behind it.
  lemma MoveStep(s: seq<Pic>, x: Pic, p: nat, tail: seq<Pic>)
    requires 0 < p <= |s|
    ensures var v := Moved(s, x, p, tail);
      Moved(s, x, p - 1, tail) == v[p := v[p - 1]][p - 1 := x] && v[p - 1] == s[p - 1]
  {
    var v, w := Moved(s, x, p, tail), Moved(s, x, p - 1, tail);
    var u := v[p := v[p - 1]][p - 1 := x];
    assert |u| == |w| && forall i :: 0 <= i < |w| ==> u[i] == w[i];
  }

  lemma MoveEnds(s: seq<Pic>, x: Pic, p: nat, tail: seq<Pic>)
    requires p <= |s|
    ensures Moved(s, x, p, tail)[..|s| + 1] == s[..p] + [x] + s[p..] && Moved(s, x, p, tail)[|s| + 1..] == tail
  {
    var front := s[..p] + [x] + s[p..];
    assert |front| == |s| + 1 && Moved(s, x, p, tail) == front + tail;
  }

  lemma MovedAt(s: seq<Pic>, x: Pic, p: nat, tail: seq<Pic>, k: nat)
    requires k < p <= |s|
    ensures Moved(s, x, p, tail)[k] == s[k]
  {
  }

  // ----- Bits

  function EncodeSteps(steps: seq<Step>, j: nat): Bits
    requires j <= |steps|
    decreases |steps| - j
  {
    if j == |steps| then [] else EncodeUe(steps[j].minus1) + ([steps[j].used] + EncodeSteps(steps, j + 1))
  }

  // The second flag is only coded behind a first one that is not set.
  function EncodeFlags(flags: seq<Flags>, j: nat): Bits
    requires j <= |flags|
    decreases |flags| - j
  {
    if j == |flags| then []
    else (if flags[j].usedByCurr then [true] else [false, flags[j].useDelta]) + EncodeFlags(flags, j + 1)
  }

  function EncodeSet(x: SetSyntax): Bits {
    match x
    case Explicit(neg, pos) => EncodeUe(|neg|) + (EncodeUe(|pos|) + (EncodeSteps(neg, 0) + EncodeSteps(pos, 0)))
    case Inter(sign, absMinus1, flags) => [sign] + (EncodeUe(absMinus1) + EncodeFlags(flags, 0))
  }

  // The sets from number i on; all but the first say whether they are predicted.
  function EncodeSets(xs: seq<SetSyntax>, i: nat): Bits
    requires i <= |xs|
    decreases |xs| - i
  {
    if i == |xs| then []
    else (if i == 0 then [] else [xs[i].Inter?]) + (EncodeSet(xs[i]) + EncodeSets(xs, i + 1))
  }

  // Code numbers that the bit reader can read.
  predicate Short(v: nat) {
    v < 0x7fff_ffff
  }

  ghost predicate ShortSteps(steps: seq<Step>) {
    Short(|steps|) && forall i :: 0 <= i < |steps| ==> Short(steps[i].minus1)
  }

  ghost predicate ShortCodes(x: SetSyntax) {
    match x
    case Explicit(neg, pos) => ShortSteps(neg) && ShortSteps(pos)
    case Inter(_, absMinus1, _) => Short(absMinus1)
  }

  // READ_UVLC, at the codeword of v.
  method ReadUvlc(reader: Reader, ghost v: nat, ghost rest: Bits) returns (code: nat)
    requires reader.Valid() && Short(v) && reader.Rest() == EncodeUe(v) + rest
    modifies reader
    ensures reader.Valid() && reader.Rest() == rest && code == v
  {
    hide Reader.Valid, Reader.Rest, EncodeUe, Log2, LeadingZeros;
    UeRoundTrip(v, rest);
    UeShort(v);
    code := reader.ReadUvlc();
  }

  // READ_FLAG, at the bit b.
  method ReadBit(reader: Reader, ghost b: bool, ghost rest: Bits) returns (flag: bool)
    requires reader.Valid() && reader.Rest() == [b] + rest
    modifies reader
    ensures reader.Valid() && reader.Rest() == rest && flag == b
  {
    hide Reader.Valid, Reader.Rest;
    var code := reader.ReadFlag();
    flag := code == 1;
  }

  // ----- Deltas and used flags

  // The pictures of two lists side by side.
  function Paired(deltas: seq<int>, used: seq<bool>): (s: seq<Pic>)
    requires |deltas| == |used|
    ensures |s| == |deltas| && forall i :: 0 <= i < |s| ==> s[i] == Pic(deltas[i], used[i])
  {
    seq(|deltas|, i requires 0 <= i < |deltas| => Pic(deltas[i], used[i]))
  }

  lemma PairedUpdate(deltas: seq<int>, used: seq<bool>, k: nat, d: int, u: bool)
    requires k < |deltas| == |used|
    ensures Paired(deltas[k := d], used[k := u]) == Paired(deltas, used)[k := Pic(d, u)]
  {
  }

  class RefPicSet {
    const deltas: array<int>  // m_deltaPOC
    const used: array<bool>   // m_used
    var pictures: nat
    var negatives: nat
    var positives: nat

    // Both arrays have the same number of places.
    ghost predicate Fitting() {
      deltas.Length == used.Length
    }

    ghost predicate Valid()
      reads this
    {
      Fitting() && pictures <= deltas.Length && negatives + positives == pictures
    }

    // All places of the arrays.
    ghost function Places(): (s: seq<Pic>)
      requires Fitting()
      reads deltas, used
      ensures |s| == deltas.Length
    {
      Paired(deltas[..], used[..])
    }

    // The pictures of the set.
    ghost function Pics(): (s: seq<Pic>)
      reads this, deltas, used
      requires Valid()
      ensures |s| == pictures
    {
      Places()[..pictures]
    }

    // The set that the object holds.
    ghost function Set(): PicSet
      reads this, deltas, used
      requires Valid()
    {
      PicSet(Pics(), negatives)
    }

    constructor (capacity: nat)
      ensures Valid() && pictures == 0 && deltas.Length == capacity && fresh(deltas) && fresh(used)
    {
      deltas, used := new int[capacity](_ => 0), new bool[capacity](_ => false);
      pictures, negatives, positives := 0, 0, 0;
    }

    // setDeltaPOC and setUsed of one place.
    method SetPic(k: nat, delta: int, u: bool)
      requires Fitting() && k < deltas.Length
      modifies deltas, used
      ensures Places() == old(Places())[k := Pic(delta, u)]
    {
      PairedUpdate(deltas[..], used[..], k, delta, u);
      hide Paired;
      ghost var d, v := deltas[..], used[..];
      deltas[k] := delta;
      used[k] := u;
      assert deltas[..] == d[k := delta] && used[..] == v[k := u];
    }

    // ----- sortDeltaPOC

    // One round of the insertion sort: the inner loop looks at every earlier picture, without a break.
    method InsertNext(j: nat)
      requires Fitting() && j < deltas.Length && Ascending(Places()[..j])
      modifies deltas, used
      ensures Places()[..j + 1] == InsertPic(old(Places()[..j]), old(Places()[j]))
      ensures Places()[j + 1..] == old(Places()[j + 1..])
    {
      hide Places, Paired, Ascending, Moved, InsertPic;
      ghost var s, tail := Places()[..j], Places()[j + 1..];
      var deltaPoc, u := PicAt(j);
      ghost var x := Pic(deltaPoc, u);
      MoveBegins(Places(), j);
      var k := j;
      ghost var p := j;
      while k > 0
        invariant 0 <= k <= p <= j && Frontier(s, x, k, p)
        invariant |s| == j && Places() == Moved(s, x, p, tail)
      {
        k := k - 1;
        var temp := DeltaAt(k);
        MovedAt(s, x, p, tail, k);
        FrontierMoves(s, x, k, p);
        if deltaPoc < temp {
          MoveStep(s, x, p, tail);
          MoveDown(k, deltaPoc, u);
          p := k;
        }
      }
      MoveEnds(s, x, p, tail);
      FrontierEnds(s, x, p);
    }

    // The inner loop has come down to k, and x to its place p.
    ghost predicate Frontier(s: seq<Pic>, x: Pic, k: nat, p: nat) {
      k <= p <= |s| && (p > k ==> s[p - 1].delta <= x.delta) && forall i :: p <= i < |s| ==> s[i].delta > x.delta
    }

    lemma FrontierMoves(s: seq<Pic>, x: Pic, k: nat, p: nat)
      requires Ascending(s) && Frontier(s, x, k + 1, p)
      ensures if x.delta < s[k].delta then p == k + 1 && Frontier(s, x, k, k) else Frontier(s, x, k, p)
    {
    }

    lemma FrontierEnds(s: seq<Pic>, x: Pic, p: nat)
      requires Frontier(s, x, 0, p)
      ensures InsertPic(s, x) == s[..p] + [x] + s[p..]
    {
      InsertPicSplits(s, x, p);
    }

    method PicAt(k: nat) returns (d: int, u: bool)
      requires Fitting() && k < deltas.Length
      ensures Pic(d, u) == Places()[k]
    {
      d, u := deltas[k], used[k];
    }

    method DeltaAt(k: nat) returns (d: int)
      requires Fitting() && k < deltas.Length
      ensures d == Places()[k].delta
    {
      d := deltas[k];
    }

    // Moves the picture at k one place up and puts another in its place.
    method MoveDown(k: nat, deltaPoc: int, u: bool)
      requires Fitting() && k + 1 < deltas.Length
      modifies deltas, used
      ensures Places() == old(Places())[k + 1 := old(Places()[k])][k := Pic(deltaPoc, u)]
    {
      assert Places()[k] == Pic(deltas[k], used[k]);
      hide Places;
      SetPic(k + 1, deltas[k], used[k]);
      SetPic(k, deltaPoc, u);
    }

    method SortDeltaPoc()
      requires Valid()
      modifies deltas, used
      ensures Pics() == FlipHead(SortPics(old(Pics())), negatives)
    {
      hide InsertPic, FlipHead, Places, SortPics, Ascending;
      ghost var s := Pics();
      ghost var start := if pictures > 0 then 1 else 0;
      SortBegins(Places(), s, start);
      var j := if pictures > 0 then 1 else 0;
      while j < pictures
        invariant start <= j <= pictures == |s| && SortedUpTo(Places(), s, j)
      {
        SortNext(Places(), s, j);
        ghost var before := Places();
        InsertNext(j);
        SortedNext(before, Places(), s, j);
        j := j + 1;
      }
      SortEnds(Places(), s);
      Flip();
    }

    // The first j places are the first j pictures, sorted; the others are as they were.
    ghost predicate SortedUpTo(all: seq<Pic>, s: seq<Pic>, j: nat) {
      j <= |s| <= |all| && all[..j] == SortPics(s[..j]) && all[j..|s|] == s[j..]
    }

    lemma SortBegins(all: seq<Pic>, s: seq<Pic>, j: nat)
      requires |s| <= |all| && s == all[..|s|] && j == if |s| > 0 then 1 else 0
      ensures SortedUpTo(all, s, j)
    {
      if |s| > 0 {
        SortOne(s[0]);
        assert all[..1] == [s[0]] && s[..1] == [s[0]];
        assert all[1..|s|] == s[1..];
      }
    }

    lemma SortNext(all: seq<Pic>, s: seq<Pic>, j: nat)
      requires SortedUpTo(all, s, j) && j < |s|
      ensures Ascending(all[..j]) && all[j] == s[j]
    {
      SortPicsSorts(s[..j]);
      assert all[j] == all[j..|s|][0] == s[j];
    }

    lemma SortedNext(before: seq<Pic>, all: seq<Pic>, s: seq<Pic>, j: nat)
      requires SortedUpTo(before, s, j) && j < |s| && |before| == |all| && before[j] == s[j]
      requires all[..j + 1] == InsertPic(before[..j], before[j]) && all[j + 1..] == before[j + 1..]
      ensures SortedUpTo(all, s, j + 1)
    {
      assert s[..j + 1][..j] == s[..j];
      RestOfPrefix(before, all, j + 1, |s|);
      assert before[j + 1..|s|] == before[j..|s|][1..];
    }

    lemma SortEnds(all: seq<Pic>, s: seq<Pic>)
      requires SortedUpTo(all, s, |s|)
      ensures all[..|s|] == SortPics(s)
    {
      assert s[..|s|] == s;
    }

    lemma RestOfPrefix(s: seq<Pic>, t: seq<Pic>, i: nat, n: nat)
      requires i <= n <= |s| == |t| && s[i..] == t[i..]
      ensures s[i..n] == t[i..n]
    {
      assert s[i..n] == s[i..][..n - i] && t[i..n] == t[i..][..n - i];
    }

    // Swaps the negative deltas to largest first.
    method Flip()
      requires Valid()
      modifies deltas, used
      ensures Pics() == FlipHead(old(Pics()), negatives)
    {
      ghost var s := Places();
      assert negatives <= pictures <= deltas.Length;
      HeadOfFlip(s, negatives, pictures);
      FlipBegins(s, negatives);
      hide Places, FlippedEnds, FlipHead, Paired;
      var j, half := 0, negatives / 2;
      while j < half
        invariant j <= half && 2 * half <= negatives <= 2 * half + 1 && negatives <= |s|
        invariant Places() == FlippedEnds(s, negatives, j)
      {
        FlipStep(s, negatives, j);
        Exchange(j, negatives - 1 - j);
        j := j + 1;
      }
      FlipEnds(s, negatives, j);
    }

    lemma HeadOfFlip(s: seq<Pic>, n: nat, k: nat)
      requires n <= k <= |s|
      ensures FlipHead(s, n)[..k] == FlipHead(s[..k], n)
    {
    }

    // Exchanges two pictures, deltas and flags alike.
    method Exchange(j: nat, k: nat)
      requires Fitting() && j < k < deltas.Length
      modifies deltas, used
      ensures Places() == old(Places())[j := old(Places()[k])][k := old(Places()[j])]
    {
      var deltaPoc, u := deltas[j], used[j];
      assert Places()[j] == Pic(deltaPoc, u) && Places()[k] == Pic(deltas[k], used[k]);
      hide Places;
      SetPic(j, deltas[k], used[k]);
      SetPic(k, deltaPoc, u);
    }

    // ----- parseShortTermRefPicSet

    // The pictures on one side of the current one: the distances add up, with the sign of the side.
    method ParseSteps(reader: Reader, offset: nat, count: nat, negative: bool, ghost steps: seq<Step>, ghost rest: Bits)
      requires Fitting() && count == |steps| && offset + count <= deltas.Length
      requires reader.Valid() && ShortSteps(steps) && reader.Rest() == EncodeSteps(steps, 0) + rest
      modifies reader, deltas, used
      ensures reader.Valid() && reader.Rest() == rest
      ensures Places()[..offset] == old(Places()[..offset])
      ensures Places()[offset..offset + count] == OneSide(steps, negative)
    {
      hide Reader.Valid, Reader.Rest, Places, EncodeUe, EncodeSteps, OneSide, Signed, Reach;
      var prev: int := 0;
      ghost var before, side := Places()[..offset], OneSide(steps, negative);
      SideBegins(steps, negative);
      for j := 0 to count
        invariant prev == Signed(Reach(steps, j), negative)
        invariant reader.Valid() && reader.Rest() == EncodeSteps(steps, j) + rest
        invariant Places()[..offset + j] == before + side[..j]
      {
        ghost var behind := EncodeSteps(steps, j + 1) + rest;
        StepBits(steps, j, rest);
        SideAt(steps, negative, j);
        var code := ReadUvlc(reader, steps[j].minus1, [steps[j].used] + behind);
        var poc: int := if negative then prev - code - 1 else prev + code + 1;
        prev := poc;
        var flag := ReadBit(reader, steps[j].used, behind);
        ghost var all := Places();
        SetPic(offset + j, poc, flag);
        OneMore(all, before, side, offset, j);
      }
      NoBitsLeft(steps, rest);
      SplitPlaces(Places(), before, side, offset, count);
    }

    lemma SideBegins(steps: seq<Step>, negative: bool)
      ensures Signed(Reach(steps, 0), negative) == 0
    {
    }

    lemma SideAt(steps: seq<Step>, negative: bool, j: nat)
      requires j < |steps|
      ensures var prev, code := Signed(Reach(steps, j), negative), steps[j].minus1;
        && Signed(Reach(steps, j + 1), negative) == (if negative then prev - code - 1 else prev + code + 1)
        && OneSide(steps, negative)[j] == Pic(Signed(Reach(steps, j + 1), negative), steps[j].used)
    {
    }

    lemma StepBits(steps: seq<Step>, j: nat, rest: Bits)
      requires j < |steps|
      ensures EncodeSteps(steps, j) + rest ==
              EncodeUe(steps[j].minus1) + ([steps[j].used] + (EncodeSteps(steps, j + 1) + rest))
    {
      hide EncodeUe;
    }

    lemma NoBitsLeft(steps: seq<Step>, rest: Bits)
      ensures EncodeSteps(steps, |steps|) + rest == rest
    {
    }

    lemma OneMore(all: seq<Pic>, before: seq<Pic>, side: seq<Pic>, offset: nat, j: nat)
      requires |before| == offset && j < |side| && offset + j < |all| && all[..offset + j] == before + side[..j]
      ensures all[offset + j := side[j]][..offset + j + 1] == before + side[..j + 1]
    {
    }

    lemma SplitPlaces(all: seq<Pic>, before: seq<Pic>, side: seq<Pic>, offset: nat, count: nat)
      requires |before| == offset && |side| == count && offset + count <= |all|
      requires all[..offset + count] == before + side[..count]
      ensures all[..offset] == before && all[offset..offset + count] == side
    {
      assert all[..offset] == all[..offset + count][..offset];
      assert all[offset..offset + count] == all[..offset + count][offset..];
    }

    method ParseExplicit(reader: Reader, ghost neg: seq<Step>, ghost pos: seq<Step>, ghost rest: Bits)
      requires Fitting() && |neg| + |pos| <= deltas.Length
      requires reader.Valid() && ShortSteps(neg) && ShortSteps(pos)
      requires reader.Rest() == EncodeSet(Explicit(neg, pos)) + rest
      modifies reader, this, deltas, used
      ensures reader.Valid() && reader.Rest() == rest
      ensures Valid() && Set() == FromExplicit(neg, pos)
    {
      hide Reader.Valid, Reader.Rest, Places, Paired, EncodeUe, EncodeSteps, EncodeSet, ShortSteps, OneSide, FromExplicit;
      ghost var more := EncodeSteps(pos, 0) + rest;
      ghost var steps := EncodeSteps(neg, 0) + more;
      ExplicitBits(neg, pos, rest);
      ShortCounts(neg, pos);
      negatives := ReadUvlc(reader, |neg|, EncodeUe(|pos|) + steps);
      positives := ReadUvlc(reader, |pos|, steps);
      ParseSteps(reader, 0, negatives, true, neg, more);
      ghost var all := Places();
      ParseSteps(reader, negatives, positives, false, pos, rest);
      pictures := negatives + positives;
      BothSides(all, Places(), OneSide(neg, true), OneSide(pos, false));
      SidesOf(neg, pos);
    }

    lemma ExplicitBits(neg: seq<Step>, pos: seq<Step>, rest: Bits)
      ensures EncodeSet(Explicit(neg, pos)) + rest ==
              EncodeUe(|neg|) + (EncodeUe(|pos|) + (EncodeSteps(neg, 0) + (EncodeSteps(pos, 0) + rest)))
    {
      hide EncodeUe, EncodeSteps;
    }

    lemma ShortCounts(neg: seq<Step>, pos: seq<Step>)
      requires ShortSteps(neg) && ShortSteps(pos)
      ensures Short(|neg|) && Short(|pos|)
    {
    }

    lemma BothSides(s: seq<Pic>, t: seq<Pic>, left: seq<Pic>, right: seq<Pic>)
      requires |s| == |t| && |left| + |right| <= |t| && s[0..|left|] == left
      requires t[..|left|] == s[..|left|] && t[|left|..|left| + |right|] == right
      ensures t[..|left| + |right|] == left + right
    {
      assert t[..|left| + |right|] == t[..|left|] + t[|left|..|left| + |right|];
    }

    lemma SidesOf(neg: seq<Step>, pos: seq<Step>)
      ensures FromExplicit(neg, pos) == PicSet(OneSide(neg, true) + OneSide(pos, false), |neg|)
    {
    }

    // used_by_curr_pic_flag and, where it is coded, use_delta_flag.
    method ReadRefIdc(reader: Reader, ghost flags: seq<Flags>, ghost j: nat, ghost rest: Bits) returns (refIdc: nat)
      requires reader.Valid() && j < |flags| && reader.Rest() == EncodeFlags(flags, j) + rest
      modifies reader
      ensures reader.Valid() && reader.Rest() == EncodeFlags(flags, j + 1) + rest
      ensures refIdc == 1 <==> flags[j].usedByCurr
      ensures refIdc == 1 || refIdc == 2 <==> flags[j].Selected()
    {
      hide Reader.Valid, Reader.Rest, EncodeFlags;
      ghost var behind := EncodeFlags(flags, j + 1) + rest;
      ghost var more := if flags[j].usedByCurr then behind else [flags[j].useDelta] + behind;
      FlagBits(flags, j, rest);
      var bit := ReadBit(reader, flags[j].usedByCurr, more);
      refIdc := if bit then 1 else 0;
      if refIdc == 0 {
        bit := ReadBit(reader, flags[j].useDelta, behind);
        refIdc := if bit then 2 else 0;
      }
    }

    lemma FlagBits(flags: seq<Flags>, j: nat, rest: Bits)
      requires j < |flags|
      ensures var behind := EncodeFlags(flags, j + 1) + rest;
        EncodeFlags(flags, j) + rest ==
        [flags[j].usedByCurr] + if flags[j].usedByCurr then behind else [flags[j].useDelta] + behind
    {
    }

    // Collects the selected candidates in coding order.
    method SelectFrom(reader: Reader, ref: RefPicSet, deltaRps: int, ghost flags: seq<Flags>, ghost rest: Bits)
      requires ref != this && ref.deltas != deltas && ref.used != used && Fitting() && ref.Valid()
      requires |flags| == ref.pictures + 1 <= deltas.Length
      requires reader.Valid() && reader.Rest() == EncodeFlags(flags, 0) + rest
      modifies reader, this, deltas, used
      ensures reader.Valid() && reader.Rest() == rest
      ensures Valid() && Pics() == Selected(ref.Pics(), deltaRps, flags, |flags|)
      ensures negatives == CountNegative(Pics())
    {
      hide Reader.Valid, Reader.Rest, Places, Paired, Pics, EncodeFlags, Selected, CountNegative, Candidate, Flags.Selected;
      ghost var r := ref.Pics();
      var k, k0, k1 := 0, 0, 0;
      NoneSelected(r, deltaRps, flags);
      for j := 0 to ref.pictures + 1
        invariant ref.Pics() == r
        invariant reader.Valid() && reader.Rest() == EncodeFlags(flags, j) + rest
        invariant k == k0 + k1 <= j && Places()[..k] == Selected(r, deltaRps, flags, j)
        invariant k0 == CountNegative(Selected(r, deltaRps, flags, j))
      {
        ghost var s := Selected(r, deltaRps, flags, j);
        NextSelected(r, deltaRps, flags, j);
        var refIdc := ReadRefIdc(reader, flags, j, rest);
        if refIdc == 1 || refIdc == 2 {
          var deltaPoc := ref.CandidateDelta(j, deltaRps);
          ghost var all := Places();
          SetPic(k, deltaPoc, refIdc == 1);
          OnePicMore(all, s, k, Pic(deltaPoc, refIdc == 1));
          if deltaPoc < 0 {
            k0 := k0 + 1;
          } else {
            k1 := k1 + 1;
          }
          k := k + 1;
        }
      }
      pictures, negatives, positives := k, k0, k1;
      NoFlagsLeft(flags, rest);
      PicsAre();
    }

    lemma PicsAre()
      requires Valid()
      ensures Pics() == Places()[..pictures]
    {
    }

    lemma OnePicMore(all: seq<Pic>, s: seq<Pic>, k: nat, x: Pic)
      requires k < |all| && all[..k] == s
      ensures all[k := x][..k + 1] == s + [x]
    {
    }

    // The delta of a candidate: a picture of this set moved by d, or, behind them, d itself.
    method CandidateDelta(j: nat, d: int) returns (delta: int)
      requires Valid()
      ensures delta == (if j < |Pics()| then Pics()[j].delta else 0) + d
    {
      delta := d;
      if j < pictures {
        delta := d + deltas[j];
      }
    }

    lemma NoFlagsLeft(flags: seq<Flags>, rest: Bits)
      ensures EncodeFlags(flags, |flags|) + rest == rest
    {
    }

    lemma NoneSelected(r: seq<Pic>, d: int, flags: seq<Flags>)
      ensures Selected(r, d, flags, 0) == [] && CountNegative([]) == 0
    {
    }

    lemma NextSelected(r: seq<Pic>, d: int, flags: seq<Flags>, j: nat)
      requires j < |flags|
      ensures var s, x := Selected(r, d, flags, j), Pic((if j < |r| then r[j].delta else 0) + d, flags[j].usedByCurr);
        && Selected(r, d, flags, j + 1) == (if flags[j].Selected() then s + [x] else s)
        && CountNegative(s + [x]) == CountNegative(s) + if x.delta < 0 then 1 else 0
    {
      var s, x := Selected(r, d, flags, j), Candidate(r, d, flags, j);
      assert (s + [x])[..|s|] == s;
    }

    method ParseInter(reader: Reader, ref: RefPicSet, ghost sign: bool, ghost absMinus1: nat, ghost flags: seq<Flags>,
                      ghost rest: Bits)
      requires ref != this && ref.deltas != deltas && ref.used != used && Fitting() && ref.Valid()
      requires |flags| == ref.pictures + 1 <= deltas.Length
      requires reader.Valid() && Short(absMinus1) && reader.Rest() == EncodeSet(Inter(sign, absMinus1, flags)) + rest
      modifies reader, this, deltas, used
      ensures reader.Valid() && reader.Rest() == rest
      ensures Valid() && Set() == FromInter(ref.Set().pics, DeltaRps(sign, absMinus1), flags)
    {
      hide Reader.Valid, Reader.Rest, Places, EncodeFlags, EncodeUe, EncodeSet, Selected, CountNegative, SortPics, FlipHead,
           DeltaRps;
      ghost var behind := EncodeFlags(flags, 0) + rest;
      InterBits(sign, absMinus1, flags, rest);
      var bit := ReadBit(reader, sign, EncodeUe(absMinus1) + behind);
      var code := ReadUvlc(reader, absMinus1, behind);
      var deltaRps := SignedDelta(bit, code);
      SelectFrom(reader, ref, deltaRps, flags, rest);
      SortDeltaPoc();
    }

    method SignedDelta(bit: bool, code: nat) returns (deltaRps: int)
      ensures deltaRps == DeltaRps(bit, code)
    {
      deltaRps := (1 - 2 * (if bit then 1 else 0)) * (code + 1);
    }

    lemma InterBits(sign: bool, absMinus1: nat, flags: seq<Flags>, rest: Bits)
      ensures EncodeSet(Inter(sign, absMinus1, flags)) + rest ==
              [sign] + (EncodeUe(absMinus1) + (EncodeFlags(flags, 0) + rest))
    {
      hide EncodeUe, EncodeFlags;
    }
  }

  // Different sets do not share their arrays.
  ghost predicate Apart(sets: seq<RefPicSet>) {
    forall i, j :: 0 <= i < j < |sets| ==>
      sets[i] != sets[j] && sets[i].deltas != sets[j].deltas && sets[i].used != sets[j].used
  }

  // The loop of parseSPS: every set is parsed from its bits and the set before it.
  method ParseSets(reader: Reader, sets: seq<RefPicSet>, ghost xs: seq<SetSyntax>, ghost rest: Bits)
    requires |sets| == |xs| && Legal(xs) && Apart(sets)
    requires forall i :: 0 <= i < |xs| ==> sets[i].Fitting() && Room(xs[i], sets[i].deltas.Length) && ShortCodes(xs[i])
    requires reader.Valid() && reader.Rest() == EncodeSets(xs, 0) + rest
    modifies reader, set s | s in sets, set s | s in sets :: s.deltas, set s | s in sets :: s.used
    ensures reader.Valid() && reader.Rest() == rest
    ensures forall i :: 0 <= i < |sets| ==> sets[i].Valid() && sets[i].Set() == ParsedSets(xs)[i]
    ensures NothingAtZeroIn(xs) <==> forall i :: 0 <= i < |sets| ==> AsRps(sets[i].Set()) == DerivedSets(xs)[i]
  {
    hide FromExplicit, FromInter, RefPicSet.Valid, RefPicSet.Set, Reader.Valid, Reader.Rest, EncodeSet, EncodeSets, Room,
         Legal, ParsedSets, ParsedSet, ShortCodes, AsRps, DerivedSets, NothingAtZeroIn, Clean;
    for i := 0 to |sets|
      invariant reader.Valid() && reader.Rest() == EncodeSets(xs, i) + rest
      invariant forall k :: 0 <= k < i ==> sets[k].Valid() && sets[k].Set() == ParsedSets(xs[..i])[k]
    {
      PrefixParses(xs, i);
      NextBits(xs, i, rest);
      ParseSet(reader, sets, i, xs[i], Before(ParsedSets(xs[..i])), EncodeSets(xs, i + 1) + rest);
    }
    LastBits(xs, rest);
    assert xs[..|xs|] == xs;
    ListIsDerived(xs);
  }

  lemma NextBits(xs: seq<SetSyntax>, i: nat, rest: Bits)
    requires i < |xs|
    ensures EncodeSets(xs, i) + rest ==
            (if i == 0 then [] else [xs[i].Inter?]) + (EncodeSet(xs[i]) + (EncodeSets(xs, i + 1) + rest))
  {
    hide EncodeSet;
  }

  lemma LastBits(xs: seq<SetSyntax>, rest: Bits)
    ensures EncodeSets(xs, |xs|) + rest == rest
  {
  }

  // One set of the list; the others stay as they are.
  method ParseSet(reader: Reader, sets: seq<RefPicSet>, idx: nat, ghost x: SetSyntax, ghost ref: PicSet, ghost rest: Bits)
    requires idx < |sets| && sets[idx].Fitting() && Room(x, sets[idx].deltas.Length) && ShortCodes(x) && Apart(sets)
    requires x.Inter? ==> idx > 0 && |x.flags| == |ref.pics| + 1 && sets[idx - 1].Valid() && sets[idx - 1].Set() == ref
    requires reader.Valid() && reader.Rest() == (if idx == 0 then [] else [x.Inter?]) + (EncodeSet(x) + rest)
    modifies reader, sets[idx], sets[idx].deltas, sets[idx].used
    ensures reader.Valid() && reader.Rest() == rest
    ensures sets[idx].Valid() && sets[idx].Set() == ParsedSet(x, ref)
  {
    hide EncodeSet, FromExplicit, FromInter, Reader.Valid, Reader.Rest;
    var interRpsPred := false;
    if idx > 0 {
      interRpsPred := ReadBit(reader, x.Inter?, EncodeSet(x) + rest);
    } else {
      assert [] + (EncodeSet(x) + rest) == EncodeSet(x) + rest;
    }
    if interRpsPred {
      sets[idx].ParseInter(reader, sets[idx - 1], x.sign, x.absMinus1, x.flags, rest);
    } else {
      sets[idx].ParseExplicit(reader, x.neg, x.pos, rest);
    }
  }

  lemma PrefixParses(xs: seq<SetSyntax>, i: nat)
    requires Legal(xs) && i < |xs|
    ensures ParsedSets(xs[..i + 1]) == ParsedSets(xs[..i]) + [ParsedSet(xs[i], Before(ParsedSets(xs[..i])))]
    ensures xs[i].Inter? ==> i > 0 && |xs[i].flags| == |Before(ParsedSets(xs[..i])).pics| + 1
  {
    LegalPrefix(xs, i + 1);
    assert xs[..i + 1][..i] == xs[..i];
  }

  lemma {:induction false} LegalPrefix(xs: seq<SetSyntax>, i: nat)
    requires Legal(xs) && i <= |xs|
    ensures Legal(xs[..i])
    decreases |xs|
  {
    if i < |xs| {
      LegalPrefix(xs[..|xs| - 1], i);
      assert xs[..|xs| - 1][..i] == xs[..i];
    } else {
      assert xs[..i] == xs;
    }
  }

  // The arrays of the source have room for the pictures.
  ghost predicate Room(x: SetSyntax, capacity: nat) {
    match x
    case Explicit(neg, pos) => |neg| + |pos| <= capacity
    case Inter(_, _, flags) => |flags| <= capacity
  }
}
