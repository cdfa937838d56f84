// Picture order count: reconstruction of full values from their low bits (section 8.3.1 of H.265).
module PictureOrderCount {
  import opened Bits
  import opened BitReader

  const RADL_R: nat := 7
  const RASL_R: nat := 9
  const VCL_R15: nat := 15
  const BLA_W_LP: nat := 16
  const BLA_N_LP: nat := 18
  const IDR_W_RADL: nat := 19
  const IDR_N_LP: nat := 20
  const IRAP_VCL23: nat := 23

  predicate IsReferenceNalu(nal: nat) {
    (nal <= VCL_R15 && nal % 2 != 0) || BLA_W_LP <= nal <= IRAP_VCL23
  }

  predicate IsIdr(nal: nat) {
    nal == IDR_W_RADL || nal == IDR_N_LP
  }

  predicate IsBla(nal: nat) {
    BLA_W_LP <= nal <= BLA_N_LP
  }

  // The pictures that later ones are counted from.
  predicate IsAnchor(nal: nat, tid: nat) {
    tid == 0 && IsReferenceNalu(nal) && nal != RASL_R && nal != RADL_R
  }

  // Table 7-1 of H.265: of temporal layer 0, the reference pictures TRAIL_R, TSA_R and STSA_R, the reserved ones, and
  // all intra random access pictures; not RADL_R and RASL_R.
  lemma AnchorTypes(nal: nat, tid: nat)
    ensures IsAnchor(nal, tid) <==>
            tid == 0 && nal in {1, 3, 5, 11, 13, 15, 16, 17, 18, 19, 20, 21, 22, 23}
    ensures IsBla(nal) <==> nal in {16, 17, 18}
    ensures IsIdr(nal) <==> nal in {19, 20}
  {
  }

  // The value of x & (max - 1) for a power of two, on two's complement numbers.
  function Lsb(x: int, max: nat): (r: nat)
    requires max > 0
    ensures r < max
  {
    x % max
  }

  // The high part of the POC, as in the slice header parser.
  function SliceMsb(lsb: nat, prev: int, max: nat): int
    requires max > 0
  {
    var prevLsb := Lsb(prev, max);
    var prevMsb := prev - prevLsb;
    if lsb < prevLsb && prevLsb - lsb >= max / 2 then prevMsb + max
    else if lsb > prevLsb && lsb - prevLsb > max / 2 then prevMsb - max
    else prevMsb
  }

  // getCurrMsb.
  function GetCurrMsb(currLsb: int, prevLsb: int, prevMsb: int, maxLsbVal: nat): int {
    if prevLsb - currLsb >= maxLsbVal / 2 then prevMsb + maxLsbVal
    else if currLsb - prevLsb > maxLsbVal / 2 then prevMsb - maxLsbVal
    else prevMsb
  }

  // The two formulations agree as soon as there is a low bit.
  lemma MsbFormulationsAgree(lsb: nat, prev: int, max: nat)
    requires max >= 2
    ensures GetCurrMsb(lsb, Lsb(prev, max), prev - Lsb(prev, max), max) == SliceMsb(lsb, prev, max)
  {
  }

  // The POC of a base-layer picture, from its type, its low bits and the last anchor.
  function DecodedPoc(nal: nat, lsb: nat, prev: int, max: nat): int
    requires max > 0
  {
    if IsIdr(nal) then 0
    else (if IsBla(nal) then 0 else SliceMsb(lsb, prev, max)) + lsb
  }

  // A coded picture, with the POC it was coded with.
  datatype Picture = Picture(nal: nat, tid: nat, poc: int)

  // What a picture may be for its low bits to suffice.
  predicate Recoverable(p: Picture, prev: int, max: nat) {
    if IsIdr(p.nal) then p.poc == 0
    else if IsBla(p.nal) then 0 <= p.poc < max
    else -(max as int) < 2 * (p.poc - prev) <= max
  }

  lemma MultiplesDiffer(k: int, max: nat)
    requires max > 0 && k % max == 0 && -(max as int) < k < max
    ensures k == 0
  {
    var q := k / max;
    assert k == q * max;
    MultipleSize(q, max);
  }

  lemma MultipleSize(q: int, max: nat)
    ensures q >= 1 ==> q * max >= max
    ensures q <= -1 ==> q * max <= 0 - max
  {
    if q >= 1 {
      assert q * max == max + (q - 1) * max;
    } else if q <= -1 {
      assert q * max == (q + 1) * max - max;
    }
  }

  lemma LsbLeavesMultiple(x: int, max: nat)
    requires max > 0
    ensures (x - Lsb(x, max)) % max == 0
  {
    var q := x / max;
    assert x - Lsb(x, max) == q * max;
    ModOfMultiple(q, max);
  }

  lemma SameResidue(a: int, b: int, max: nat)
    requires max > 0
    ensures (Lsb(a, max) + (b - Lsb(b, max)) - a) % max == 0
  {
    var q, r := a / max, b / max;
    assert a == q * max + Lsb(a, max) && b == r * max + Lsb(b, max);
    assert Lsb(a, max) + (b - Lsb(b, max)) - a == (r - q) * max;
    ModOfMultiple(r - q, max);
  }

  lemma ModOfMultiple(k: int, max: nat)
    requires max > 0
    ensures (k * max) % max == 0
  {
    var x := k * max;
    var q := x / max;
    assert x == q * max + x % max;
    assert (k - q) * max == x % max;
    MultipleSize(k - q, max);
  }

  // One picture: its POC is recovered from its low bits if and only if it is recoverable.
  lemma StepRecovers(p: Picture, prev: int, max: nat)
    requires max >= 2 && max % 2 == 0
    ensures DecodedPoc(p.nal, Lsb(p.poc, max), prev, max) == p.poc <==> Recoverable(p, prev, max)
  {
    hide Lsb;
    var lsb, prevLsb := Lsb(p.poc, max), Lsb(prev, max);
    if IsBla(p.nal) {
      if 0 <= p.poc < max {
        LsbLeavesMultiple(p.poc, max);
        MultiplesDiffer(p.poc - lsb, max);
      }
    } else if !IsIdr(p.nal) {
      SameResidue(p.poc, prev, max);
      // The candidate before adjustment, its distance to the true value, and its distance to prev.
      var e, d := lsb + (prev - prevLsb) - p.poc, lsb - prevLsb;
      if Recoverable(p, prev, max) {
        AdjustedExactly(e, d, p.poc - prev, max);
      }
    }
  }

  // In a window of max values there is exactly one with the right residue.
  lemma AdjustedExactly(e: int, d: int, t: int, max: nat)
    requires max >= 2 && max % 2 == 0 && e % max == 0 && e == d - t
    requires -(max as int) < d < max && -(max as int) < 2 * t <= max
    ensures if d < 0 && -d >= max / 2 then e + max == 0
            else if d > 0 && d > max / 2 then e - max == 0
            else e == 0
  {
    if d < 0 && -d >= max / 2 {
      ShiftedMultiple(e, 1, max);
      MultiplesDiffer(e + max, max);
    } else if d > 0 && d > max / 2 {
      ShiftedMultiple(e, -1, max);
      MultiplesDiffer(e - max, max);
    } else {
      MultiplesDiffer(e, max);
    }
  }

  lemma ShiftedMultiple(e: int, s: int, max: nat)
    requires max > 0 && e % max == 0
    ensures (e + s * max) % max == 0
  {
    var q := e / max;
    assert e + s * max == (q + s) * max;
    ModOfMultiple(q + s, max);
  }

  // ----- Runs

  // The anchor after a picture.
  function NextAnchor(p: Picture, poc: int, prev: int): int {
    if IsAnchor(p.nal, p.tid) then poc else prev
  }

  // The POCs that the decoder assigns when it sees the types and the low bits of the pictures.
  ghost function DecodedRun(pics: seq<Picture>, prev: int, max: nat): (r: seq<int>)
    requires max > 0
    ensures |r| == |pics|
  {
    if pics == [] then []
    else
      var poc := DecodedPoc(pics[0].nal, Lsb(pics[0].poc, max), prev, max);
      [poc] + DecodedRun(pics[1..], NextAnchor(pics[0], poc, prev), max)
  }

  ghost function Pocs(pics: seq<Picture>): (r: seq<int>)
    ensures |r| == |pics|
  {
    seq(|pics|, i requires 0 <= i < |pics| => pics[i].poc)
  }

  // Every picture is recoverable from the last true anchor before it.
  ghost predicate RecoverableRun(pics: seq<Picture>, prev: int, max: nat) {
    pics == [] ||
    (Recoverable(pics[0], prev, max) && RecoverableRun(pics[1..], NextAnchor(pics[0], pics[0].poc, prev), max))
  }

  // A whole run: all POCs are recovered from the low bits if and only if every picture is within half
  // the range of the last anchor.
  lemma {:induction false} RunRecovers(pics: seq<Picture>, prev: int, max: nat)
    requires max >= 2 && max % 2 == 0
    ensures DecodedRun(pics, prev, max) == Pocs(pics) <==> RecoverableRun(pics, prev, max)
    decreases |pics|
  {
    hide DecodedPoc, Recoverable, Lsb;
    if pics != [] {
      StepRecovers(pics[0], prev, max);
      RunRecovers(pics[1..], NextAnchor(pics[0], pics[0].poc, prev), max);
      assert Pocs(pics) == [pics[0].poc] + Pocs(pics[1..]);
      var poc := DecodedPoc(pics[0].nal, Lsb(pics[0].poc, max), prev, max);
      var rest := DecodedRun(pics[1..], NextAnchor(pics[0], poc, prev), max);
      assert ([poc] + rest)[0] == poc && ([poc] + rest)[1..] == rest;
      assert Pocs(pics)[1..] == Pocs(pics[1..]) && Pocs(pics)[0] == pics[0].poc;
    }
  }

  // ----- The slice object

  // The POC of the last anchor of a run; 0 before the first.
  ghost predicate AnchorIs(pics: seq<Picture>, poc: int) {
    if exists k :: 0 <= k < |pics| && IsAnchor(pics[k].nal, pics[k].tid)
    then exists k :: 0 <= k < |pics| && IsAnchor(pics[k].nal, pics[k].tid) && poc == pics[k].poc &&
                     forall i :: k < i < |pics| ==> !IsAnchor(pics[i].nal, pics[i].tid)
    else poc == 0
  }

  // One more picture: an anchor takes over, any other leaves the last one in place.
  lemma AnchorAfter(pics: seq<Picture>, p: Picture, prev: int, poc: int)
    requires AnchorIs(pics, prev)
    ensures AnchorIs(pics + [p], poc) <==> poc == NextAnchor(p, p.poc, prev)
  {
    hide IsAnchor;
    var all := pics + [p];
    assert all[|pics|] == p && forall i :: 0 <= i < |pics| ==> all[i] == pics[i];
    if IsAnchor(p.nal, p.tid) {
      assert IsAnchor(all[|pics|].nal, all[|pics|].tid);
    } else if k :| 0 <= k < |pics| && IsAnchor(pics[k].nal, pics[k].tid) && prev == pics[k].poc &&
                   forall i :: k < i < |pics| ==> !IsAnchor(pics[i].nal, pics[i].tid) {
      assert IsAnchor(all[k].nal, all[k].tid);
    } else {
      assert forall i :: 0 <= i < |all| ==> !IsAnchor(all[i].nal, all[i].tid);
    }
  }

  class Slice {
    var poc: int
    var nalUnitType: nat
    var tLayer: nat
    var prevTid0Poc: int       // static in the source: one for all slices
    ghost var run: seq<Picture>  // the pictures so far

    // The anchor is that of the run.
    ghost predicate Valid()
      reads this
    {
      AnchorIs(run, prevTid0Poc)
    }

    constructor ()
      ensures Valid() && run == [] && prevTid0Poc == 0
    {
      poc, nalUnitType, tLayer, prevTid0Poc := 0, 0, 0, 0;
      run := [];
    }

    // setPOC: the picture joins the run, and the anchor stays the last one of the run.
    method SetPoc(i: int)
      requires Valid()
      modifies this`poc, this`prevTid0Poc, this`run
      ensures Valid() && run == old(run) + [Picture(nalUnitType, tLayer, i)] && poc == i
    {
      ghost var p := Picture(nalUnitType, tLayer, i);
      AnchorAfter(run, p, prevTid0Poc, NextAnchor(p, i, prevTid0Poc));
      hide AnchorIs;
      poc := i;
      if tLayer == 0 && IsReferenceNalu(nalUnitType) && nalUnitType != RASL_R && nalUnitType != RADL_R {
        prevTid0Poc := i;
      }
      run := run + [p];
    }

    // The POC part of a base-layer slice header. Only pictures that are not IDR code low bits: that many of them are
    // read.
    method ReadPoc(reader: Reader, nal: nat, tid: nat, bits: nat)
      requires Valid() && reader.Valid() && 1 <= bits <= 31 && (!IsIdr(nal) ==> bits <= |reader.Rest()|)
      modifies this, reader
      ensures Valid() && reader.Valid() && run == old(run) + [Picture(nal, tid, poc)]
      ensures IsIdr(nal) ==> poc == 0 && reader.Rest() == old(reader.Rest())
      ensures !IsIdr(nal) ==>
                poc == DecodedPoc(nal, Value(old(reader.Rest())[..bits]), old(prevTid0Poc), Pow2(bits)) &&
                reader.Rest() == old(reader.Rest())[bits..]
    {
      hide AnchorIs, DecodedPoc, Reader.Rest;
      if IsIdr(nal) {
        ParsePoc(nal, tid, 0, Pow2(bits));
        IdrPoc(nal, 0, old(prevTid0Poc), Pow2(bits));
      } else {
        var lsb := reader.Read(bits);
        ParsePoc(nal, tid, lsb, Pow2(bits));
      }
    }

    lemma IdrPoc(nal: nat, lsb: nat, prev: int, max: nat)
      requires IsIdr(nal) && max > 0
      ensures DecodedPoc(nal, lsb, prev, max) == 0
    {
    }

    // The POC of a picture from its low bits; those of IDR pictures do not matter.
    method ParsePoc(nal: nat, tid: nat, lsb: nat, max: nat)
      requires Valid() && max > 0
      modifies this
      ensures Valid() && run == old(run) + [Picture(nal, tid, poc)]
      ensures poc == DecodedPoc(nal, lsb, old(prevTid0Poc), max)
    {
      hide AnchorIs;
      nalUnitType, tLayer := nal, tid;
      if IsIdr(nal) {
        SetPoc(0);
      } else {
        var prevPoc := prevTid0Poc;
        var prevLsb := Lsb(prevPoc, max);
        var prevMsb := prevPoc - prevLsb;
        var msb;
        if lsb < prevLsb && prevLsb - lsb >= max / 2 {
          msb := prevMsb + max;
        } else if lsb > prevLsb && lsb - prevLsb > max / 2 {
          msb := prevMsb - max;
        } else {
          msb := prevMsb;
        }
        if IsBla(nal) {
          msb := 0;
        }
        SetPoc(msb + lsb);
      }
    }

    // The headers of a run of pictures, one after the other: they give back the POCs that were coded if and only if
    // every picture is within reach of the last anchor before it.
    method ParseRun(pics: seq<Picture>, max: nat) returns (pocs: seq<int>)
      requires Valid() && max > 0
      modifies this
      ensures Valid() && pocs == DecodedRun(pics, old(prevTid0Poc), max)
      ensures max >= 2 && max % 2 == 0 ==> (pocs == Pocs(pics) <==> RecoverableRun(pics, old(prevTid0Poc), max))
    {
      if max >= 2 && max % 2 == 0 {
        RunRecovers(pics, prevTid0Poc, max);
      }
      hide AnchorIs, DecodedPoc, RecoverableRun, Pocs;
      pocs := [];
      for i := 0 to |pics|
        invariant Valid() && pocs + DecodedRun(pics[i..], prevTid0Poc, max) == DecodedRun(pics, old(prevTid0Poc), max)
      {
        var p := pics[i];
        assert pics[i..][0] == p && pics[i..][1..] == pics[i + 1..];
        ghost var before, prev := run, prevTid0Poc;
        ParsePoc(p.nal, p.tid, Lsb(p.poc, max), max);
        AnchorAfter(before, Picture(p.nal, p.tid, poc), prev, prevTid0Poc);
        pocs := pocs + [poc];
      }
    }
  }
}
