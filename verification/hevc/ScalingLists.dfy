// Scaling lists: coefficients coded as differences in scan order (sections 7.3.4 and 7.4.5 of H.265).
module ScalingLists {
  import opened Bits
  import opened ExpGolomb
  import opened BitReader
  import opened ScanOrders
  import opened ScanTables

  const SCALING_LIST_8x8: nat := 1
  const SCALING_LIST_SIZE_NUM: nat := 4
  const SCALING_LIST_START_VALUE: int := 8

  // ----- Differences

  // The remainder of a division that truncates towards zero.
  function Remainder(a: int, b: nat): int
    requires b > 0
  {
    if a >= 0 then a % b else -((-a) % b)
  }

  // A coefficient from the one before it and the coded difference.
  function NextCoef(prev: int, data: int): int {
    Remainder(prev + data + 256, 256)
  }

  predicate IsCoef(c: int) {
    0 <= c <= 255
  }

  predicate IsDelta(d: int) {
    -128 <= d <= 127
  }

  // The step is the one of the standard, modulo 256, and stays in range, exactly when the sum is not negative
  // or its remainder vanishes.
  lemma NextCoefExactly(prev: int, data: int)
    requires IsCoef(prev)
    ensures NextCoef(prev, data) == (prev + data + 256) % 256 <==> prev + data + 256 >= 0 || (prev + data) % 256 == 0
    ensures IsCoef(NextCoef(prev, data)) <==> prev + data + 256 >= 0 || (prev + data) % 256 == 0
    ensures IsDelta(data) ==> IsCoef(NextCoef(prev, data))
  {
    var a := prev + data + 256;
    if a < 0 {
      var q := (-a) / 256;
      assert -a == 256 * q + (-a) % 256;
      assert a % 256 == 0 <==> (prev + data) % 256 == 0;
    }
  }

  // The coefficients that a list of differences stands for.
  function Coefs(start: int, deltas: seq<int>): (c: seq<int>)
    ensures |c| == |deltas|
    decreases |deltas|
  {
    if deltas == [] then []
    else
      var c := NextCoef(start, deltas[0]);
      [c] + Coefs(c, deltas[1..])
  }

  // The smallest difference modulo 256.
  function Wrap(d: int): (r: int)
    ensures IsDelta(r) && (r - d) % 256 == 0
  {
    (d + 128) % 256 - 128
  }

  // The differences that code a list of coefficients.
  function Deltas(start: int, coefs: seq<int>): (d: seq<int>)
    ensures |d| == |coefs| && forall i :: 0 <= i < |d| ==> IsDelta(d[i])
    decreases |coefs|
  {
    if coefs == [] then [] else [Wrap(coefs[0] - start)] + Deltas(coefs[0], coefs[1..])
  }

  ghost predicate AllCoefs(s: seq<int>) {
    forall i :: 0 <= i < |s| ==> IsCoef(s[i])
  }

  ghost predicate AllDeltas(s: seq<int>) {
    forall i :: 0 <= i < |s| ==> IsDelta(s[i])
  }

  lemma {:induction false} CoefsInRange(start: int, deltas: seq<int>)
    requires IsCoef(start) && AllDeltas(deltas)
    ensures AllCoefs(Coefs(start, deltas))
    decreases |deltas|
  {
    if deltas != [] {
      NextCoefExactly(start, deltas[0]);
      CoefsInRange(NextCoef(start, deltas[0]), deltas[1..]);
    }
  }

  // The sum of the first n differences.
  ghost function SumOf(deltas: seq<int>, n: nat): int
    requires n <= |deltas|
  {
    if n == 0 then 0 else SumOf(deltas, n - 1) + deltas[n - 1]
  }

  // With differences in range, every coefficient is the start plus all differences so far, modulo 256.
  lemma {:induction false} CoefIsSum(start: int, deltas: seq<int>, i: nat)
    requires IsCoef(start) && AllDeltas(deltas) && i < |deltas|
    ensures Coefs(start, deltas)[i] == (start + SumOf(deltas, i + 1)) % 256
    decreases |deltas|
  {
    var c := NextCoef(start, deltas[0]);
    NextCoefExactly(start, deltas[0]);
    hide NextCoef;
    if i > 0 {
      CoefIsSum(c, deltas[1..], i - 1);
      SumOfTail(deltas, i + 1);
      ModAbsorbs(start + deltas[0] + 256, SumOf(deltas[1..], i));
      ModAbsorbs(start + SumOf(deltas, i + 1) + 256, 0);
    } else {
      assert SumOf(deltas, 1) == SumOf(deltas, 0) + deltas[0];
    }
  }

  lemma ModAbsorbs(a: int, b: int)
    ensures (a % 256 + b) % 256 == (a + b) % 256 && (a - 256) % 256 == a % 256
  {
  }

  lemma {:induction false} SumOfTail(deltas: seq<int>, n: nat)
    requires 0 < n <= |deltas|
    ensures SumOf(deltas, n) == deltas[0] + SumOf(deltas[1..], n - 1)
  {
    if n > 1 {
      SumOfTail(deltas, n - 1);
    }
  }

  lemma WrapRestores(prev: int, c: int)
    requires IsCoef(prev) && IsCoef(c)
    ensures NextCoef(prev, Wrap(c - prev)) == c
  {
  }

  lemma NextCoefDetermines(prev: int, d: int)
    requires IsCoef(prev) && IsDelta(d)
    ensures Wrap(NextCoef(prev, d) - prev) == d
  {
  }

  // Decoding the differences of a list of coefficients restores it.
  lemma {:induction false} DecodeOfEncode(start: int, coefs: seq<int>)
    requires IsCoef(start) && AllCoefs(coefs)
    ensures Coefs(start, Deltas(start, coefs)) == coefs
    decreases |coefs|
  {
    hide NextCoef, Wrap;
    if coefs != [] {
      WrapRestores(start, coefs[0]);
      DecodeOfEncode(coefs[0], coefs[1..]);
      assert Deltas(start, coefs)[1..] == Deltas(coefs[0], coefs[1..]);
    }
  }

  // Different lists of differences in range code different coefficients.
  lemma {:induction false} EncodeOfDecode(start: int, deltas: seq<int>)
    requires IsCoef(start) && AllDeltas(deltas)
    ensures Deltas(start, Coefs(start, deltas)) == deltas
    decreases |deltas|
  {
    hide NextCoef, Wrap;
    if deltas != [] {
      var c := NextCoef(start, deltas[0]);
      NextCoefExactly(start, deltas[0]);
      NextCoefDetermines(start, deltas[0]);
      EncodeOfDecode(c, deltas[1..]);
      assert Coefs(start, deltas)[1..] == Coefs(c, deltas[1..]);
    }
  }

  // ----- The bits

  // n complete codewords, one behind the other, that the reader can read.
  predicate RunReady(b: Bits, n: nat) {
    n == 0 || (UeReady(b, 30) && RunReady(b[UeLength(b)..], n - 1))
  }

  function RunValues(b: Bits, n: nat): (v: seq<int>)
    requires RunReady(b, n)
    ensures |v| == n
  {
    if n == 0 then [] else [SeValue(b)] + RunValues(b[UeLength(b)..], n - 1)
  }

  function RunRest(b: Bits, n: nat): Bits
    requires RunReady(b, n)
  {
    if n == 0 then b else RunRest(b[UeLength(b)..], n - 1)
  }

  function EncodeRun(values: seq<int>): Bits {
    if values == [] then [] else EncodeSe(values[0]) + EncodeRun(values[1..])
  }

  lemma ShortPrefix(x: int, rest: Bits)
    requires -256 < x < 256
    ensures UeReady(EncodeSe(x) + rest, 30)
  {
    UeRoundTrip(CodeNumOf(x), rest);
    assert Pow2(10) == 1024;
    UePrefixBound(CodeNumOf(x), 10);
  }

  // Reading encoded values gives them back, and consumes exactly their codewords.
  lemma {:induction false} RunRoundTrip(values: seq<int>, rest: Bits)
    requires forall i :: 0 <= i < |values| ==> -256 < values[i] < 256
    ensures RunReady(EncodeRun(values) + rest, |values|)
    ensures RunValues(EncodeRun(values) + rest, |values|) == values
    ensures RunRest(EncodeRun(values) + rest, |values|) == rest
    decreases |values|
  {
    hide EncodeSe, UeReady, UeLength, SeValue;
    var b := EncodeRun(values) + rest;
    if values == [] {
      assert b == rest;
    } else {
      var tail := EncodeRun(values[1..]) + rest;
      assert b == EncodeSe(values[0]) + tail;
      SeRoundTrip(values[0], tail);
      ShortPrefix(values[0], tail);
      RunRoundTrip(values[1..], rest);
    }
  }

  // ----- The lists

  function ListWidth(sizeId: nat): nat {
    if sizeId == 0 then 4 else 8
  }

  // The number of coded coefficients: the whole list, but not more than 64.
  function CoefNum(sizeId: nat): nat {
    if sizeId == 0 then 16 else 64
  }

  function ListScan(sizeId: nat): seq<Cell> {
    DiagScan(ListWidth(sizeId))
  }

  lemma ListScanIsScan(sizeId: nat)
    ensures IsScan(ListScan(sizeId), ListWidth(sizeId)) && |ListScan(sizeId)| == CoefNum(sizeId)
  {
    hide DiagScan;
    DiagScanIsScan(ListWidth(sizeId));
  }

  // These are the orders of the tables that the decoder uses.
  lemma ListScanIsTable(sizeId: nat)
    ensures ListScan(sizeId) == if sizeId == 0 then DiagonalTable(1) else GroupScan()
  {
    hide DiagScan, GroupScan;
    assert Pow2(2) == 4;
    if sizeId != 0 {
      var w := GroupScanIs(8);
    }
  }

  // A matrix holds a list of coefficients in scan order.
  ghost predicate Scattered(m: seq<int>, cells: seq<Cell>, w: nat, coefs: seq<int>) {
    |coefs| == |cells| &&
    forall i {:trigger coefs[i]} :: 0 <= i < |cells| ==> Raster(cells[i], w) < |m| && m[Raster(cells[i], w)] == coefs[i]
  }

  // The coefficients of a matrix, in scan order.
  function Gather(m: seq<int>, cells: seq<Cell>, w: nat): (c: seq<int>)
    ensures |c| == |cells|
    ensures forall i :: 0 <= i < |cells| && Raster(cells[i], w) < |m| ==> c[i] == m[Raster(cells[i], w)]
    ensures AllCoefs(m) ==> AllCoefs(c)
  {
    seq(|cells|, i requires 0 <= i < |cells| => if Raster(cells[i], w) < |m| then m[Raster(cells[i], w)] else 0)
  }

  lemma RasterInside(c: Cell, w: nat)
    requires c.y < w && c.x < w
    ensures Raster(c, w) < w * w
  {
    MultipleAtLeast(c.y, w, w);
  }

  lemma ScanInside(cells: seq<Cell>, w: nat)
    requires IsScan(cells, w)
    ensures forall i :: 0 <= i < |cells| ==> Raster(cells[i], w) < w * w
  {
    forall i | 0 <= i < |cells|
      ensures Raster(cells[i], w) < w * w
    {
      assert cells[i] in cells;
      RasterInside(cells[i], w);
    }
  }

  // In a scan, different positions are different places.
  lemma RasterInjective(a: Cell, b: Cell, w: nat)
    requires a.x < w && b.x < w && Raster(a, w) == Raster(b, w)
    ensures a == b
  {
    QuotientUnique(w, a.y, a.x, b.y, b.x);
  }

  // A scan reaches every place of the matrix: two matrices with the same coefficients are equal.
  lemma ScatteredUnique(m: seq<int>, n: seq<int>, cells: seq<Cell>, w: nat, coefs: seq<int>, r: nat)
    requires w > 0 && IsScan(cells, w) && Scattered(m, cells, w, coefs) && Scattered(n, cells, w, coefs)
    requires r < w * w <= |m| && w * w <= |n|
    ensures m[r] == n[r]
  {
    var c := Cell(r / w, r % w);
    assert r == c.y * w + c.x;
    if c.y >= w {
      MultipleAtLeast(w - 1, c.y, w);
    }
    assert Inside(c, w);
    var i :| 0 <= i < |cells| && cells[i] == c;
    assert m[Raster(cells[i], w)] == coefs[i];
  }

  // One scaling list: its coefficients, in raster order, and its DC value.
  class ScalingList {
    const coef: array<int>
    var dc: int

    constructor (sizeId: nat)
      ensures coef.Length == CoefNum(sizeId) && fresh(coef)
    {
      coef := new int[CoefNum(sizeId)];
      dc := 16;
    }
  }

  // The bits of a list: behind the DC value of the larger sizes, the differences.
  predicate ListReady(b: Bits, sizeId: nat) {
    if sizeId > SCALING_LIST_8x8 then UeReady(b, 30) && RunReady(b[UeLength(b)..], CoefNum(sizeId))
    else RunReady(b, CoefNum(sizeId))
  }

  function BehindDc(b: Bits, sizeId: nat): Bits
    requires ListReady(b, sizeId)
  {
    if sizeId > SCALING_LIST_8x8 then b[UeLength(b)..] else b
  }

  // The predecessor of the first coefficient.
  function StartOf(b: Bits, sizeId: nat): int
    requires ListReady(b, sizeId)
  {
    if sizeId > SCALING_LIST_8x8 then SeValue(b) + 8 else SCALING_LIST_START_VALUE
  }

  // The coefficients that the bits stand for, in scan order.
  function DecodedCoefs(b: Bits, sizeId: nat): (c: seq<int>)
    requires ListReady(b, sizeId)
    ensures |c| == CoefNum(sizeId)
  {
    Coefs(StartOf(b, sizeId), RunValues(BehindDc(b, sizeId), CoefNum(sizeId)))
  }

  // The number of coefficients of section 7.3.4: Min(64, 1 << (4 + (sizeId << 1))).
  lemma CoefNumIs(sizeId: nat)
    ensures CoefNum(sizeId) == if Pow2(4 + 2 * sizeId) < 64 then Pow2(4 + 2 * sizeId) else 64
  {
    assert Pow2(4) == 16 && Pow2(6) == 64;
    if sizeId > 0 {
      PowersGrow(6, 4 + 2 * sizeId);
    }
  }

  // Section 7.3.4: the coefficients start from 8, or from 8 more than the number coded in front for the sizes above 1.
  lemma FirstCoef(b: Bits, sizeId: nat)
    requires ListReady(b, sizeId)
    ensures |DecodedCoefs(b, sizeId)| > 0
    ensures sizeId <= 1 ==>
              UeReady(b, 30) && (IsDelta(SeValue(b)) ==> DecodedCoefs(b, sizeId)[0] == (8 + SeValue(b)) % 256)
    ensures sizeId > 1 ==>
              var c := b[UeLength(b)..];
              UeReady(c, 30) && (IsCoef(SeValue(b) + 8) && IsDelta(SeValue(c)) ==>
                DecodedCoefs(b, sizeId)[0] == (SeValue(b) + 8 + SeValue(c)) % 256)
  {
    hide LeadingZeros, SeValue;
    ReadyParts(b, sizeId);
    var n := CoefNum(sizeId);
    RunStep(BehindDc(b, sizeId), n);
    var x := SeValue(BehindDc(b, sizeId));
    CoefsStep(StartOf(b, sizeId), x, RunValues(BehindDc(b, sizeId), n)[1..]);
    if IsCoef(StartOf(b, sizeId)) {
      NextCoefExactly(StartOf(b, sizeId), x);
    }
    hide NextCoef;
    ModAbsorbs(StartOf(b, sizeId) + x + 256, 0);
  }

  // A list whose differences are all 0 is flat.
  lemma FlatList(b: Bits, sizeId: nat, i: nat)
    requires ListReady(b, sizeId) && sizeId <= 1 && i < CoefNum(sizeId)
    requires forall j :: 0 <= j < CoefNum(sizeId) ==> RunValues(b, CoefNum(sizeId))[j] == 0
    ensures DecodedCoefs(b, sizeId)[i] == 8
  {
    var v := RunValues(b, CoefNum(sizeId));
    CoefIsSum(8, v, i);
    SumOfZeros(v, i + 1);
  }

  lemma {:induction false} SumOfZeros(deltas: seq<int>, n: nat)
    requires n <= |deltas| && forall j :: 0 <= j < n ==> deltas[j] == 0
    ensures SumOf(deltas, n) == 0
  {
    if n > 0 {
      SumOfZeros(deltas, n - 1);
    }
  }

  // The bits behind the list.
  function ListRest(b: Bits, sizeId: nat): Bits
    requires ListReady(b, sizeId)
  {
    RunRest(BehindDc(b, sizeId), CoefNum(sizeId))
  }

  lemma RunStep(b: Bits, n: nat)
    requires n > 0 && RunReady(b, n)
    ensures UeReady(b, 30) && RunReady(b[UeLength(b)..], n - 1)
    ensures RunValues(b, n) == [SeValue(b)] + RunValues(b[UeLength(b)..], n - 1)
    ensures RunRest(b, n) == RunRest(b[UeLength(b)..], n - 1)
  {
  }

  lemma CoefsStep(start: int, data: int, rest: seq<int>)
    ensures NextCoef(start, data) == Remainder(start + data + 256, 256)
    ensures Coefs(start, [data] + rest) == [NextCoef(start, data)] + Coefs(NextCoef(start, data), rest)
  {
    assert ([data] + rest)[1..] == rest;
  }

  // The entries of a scan table are different places inside the matrix.
  lemma ScanSpreads(scan: array<nat>, n: nat, cells: seq<Cell>, w: nat)
    requires Holds(scan, n, cells, w) && IsScan(cells, w)
    ensures |cells| == n <= scan.Length
    ensures forall i :: 0 <= i < n ==> scan[i] < n && scan[i] == Raster(cells[i], w)
    ensures forall i, j :: 0 <= i < j < n ==> scan[i] != scan[j]
  {
    ScanInside(cells, w);
    forall i, j | 0 <= i < j < n
      ensures scan[i] != scan[j]
    {
      assert cells[i] in cells && cells[j] in cells;
      if scan[i] == scan[j] {
        RasterInjective(cells[i], cells[j], w);
      }
    }
  }

  lemma ReadyParts(b: Bits, sizeId: nat)
    requires ListReady(b, sizeId)
    ensures sizeId > SCALING_LIST_8x8 ==>
              UeReady(b, 30) && BehindDc(b, sizeId) == b[UeLength(b)..] && StartOf(b, sizeId) == SeValue(b) + 8
    ensures sizeId <= SCALING_LIST_8x8 ==>
              BehindDc(b, sizeId) == b && StartOf(b, sizeId) == SCALING_LIST_START_VALUE
    ensures RunReady(BehindDc(b, sizeId), CoefNum(sizeId))
    ensures ListRest(b, sizeId) == RunRest(BehindDc(b, sizeId), CoefNum(sizeId))
    ensures DecodedCoefs(b, sizeId) == Coefs(StartOf(b, sizeId), RunValues(BehindDc(b, sizeId), CoefNum(sizeId)))
  {
    hide CoefNum;
  }

  // xDecodeScalingList.
  method DecodeScalingList(reader: Reader, list: ScalingList, sizeId: nat, scan: array<nat>)
    requires reader.Valid() && ListReady(reader.Rest(), sizeId)
    requires list.coef.Length == CoefNum(sizeId)
    requires Holds(scan, CoefNum(sizeId), ListScan(sizeId), ListWidth(sizeId))
    modifies reader, list, list.coef
    ensures reader.Valid() && reader.Rest() == ListRest(old(reader.Rest()), sizeId)
    ensures Scattered(list.coef[..], ListScan(sizeId), ListWidth(sizeId), DecodedCoefs(old(reader.Rest()), sizeId))
    ensures sizeId > SCALING_LIST_8x8 ==> list.dc == StartOf(old(reader.Rest()), sizeId)
    ensures sizeId <= SCALING_LIST_8x8 ==> list.dc == old(list.dc)
  {
    hide *;
    ghost var b := reader.Rest();
    ReadyParts(b, sizeId);
    ListScanIsScan(sizeId);
    var coefNum := CoefNum(sizeId);
    var nextCoef := SCALING_LIST_START_VALUE;
    if sizeId > SCALING_LIST_8x8 {
      var scalingListDcCoefMinus8 := reader.ReadSvlc();
      list.dc := scalingListDcCoefMinus8 + 8;
      nextCoef := list.dc;
    }
    assert reader.Valid() && reader.Rest() == BehindDc(b, sizeId) && nextCoef == StartOf(b, sizeId);
    DecodeCoefs(reader, list.coef, scan, coefNum, nextCoef, ListScan(sizeId), ListWidth(sizeId));
  }

  method DecodeCoefs(reader: Reader, dst: array<int>, scan: array<nat>, coefNum: nat, start: int,
                     ghost cells: seq<Cell>, ghost w: nat)
    requires reader.Valid() && RunReady(reader.Rest(), coefNum)
    requires Holds(scan, coefNum, cells, w) && IsScan(cells, w) && dst.Length == coefNum
    modifies reader, dst
    ensures reader.Valid() && reader.Rest() == RunRest(old(reader.Rest()), coefNum)
    ensures Scattered(dst[..], cells, w, Coefs(start, RunValues(old(reader.Rest()), coefNum)))
  {
    hide *;
    ghost var b := reader.Rest();
    ScanSpreads(scan, coefNum, cells, w);
    ProgressStarts(b, coefNum, start);
    ghost var coefs := DecodeRun(reader, dst, scan, coefNum, start, Coefs(start, RunValues(b, coefNum)), RunRest(b, coefNum));
    Scatter(dst[..], scan[..], cells, w, coefs);
  }

  // The loop over the differences.
  method DecodeRun(reader: Reader, dst: array<int>, scan: array<nat>, coefNum: nat, start: int,
                   ghost all: seq<int>, ghost last: Bits)
    returns (ghost coefs: seq<int>)
    requires reader.Valid() && Progress(reader.Rest(), coefNum, start, [], all, last)
    requires scan.Length >= coefNum && dst.Length == coefNum && forall i :: 0 <= i < coefNum ==> scan[i] < coefNum
    requires forall i, j :: 0 <= i < j < coefNum ==> scan[i] != scan[j]
    modifies reader, dst
    ensures reader.Valid() && reader.Rest() == last && coefs == all && |coefs| == coefNum
    ensures forall k :: 0 <= k < coefNum ==> dst[scan[k]] == coefs[k]
  {
    hide *;
    var nextCoef := start;
    coefs := [];
    ghost var b := reader.Rest();
    for i := 0 to coefNum
      invariant reader.Valid() && reader.Rest() == b && |coefs| == i
      invariant Progress(b, coefNum - i, nextCoef, coefs, all, last)
      invariant forall k :: 0 <= k < i ==> dst[scan[k]] == coefs[k]
    {
      ProgressStep(b, coefNum - i, nextCoef, coefs, all, last);
      var data := reader.ReadSvlc();
      b := b[UeLength(b)..];
      nextCoef := Remainder(nextCoef + data + 256, 256);
      dst[scan[i]] := nextCoef;
      coefs := coefs + [nextCoef];
    }
    ProgressEnds(b, nextCoef, coefs, all, last);
  }

  lemma ProgressStarts(b: Bits, n: nat, start: int)
    requires RunReady(b, n)
    ensures Progress(b, n, start, [], Coefs(start, RunValues(b, n)), RunRest(b, n))
  {
  }

  // What is decoded and what is left make up the whole list.
  ghost predicate Progress(b: Bits, n: nat, nextCoef: int, coefs: seq<int>, all: seq<int>, last: Bits) {
    RunReady(b, n) && RunRest(b, n) == last && coefs + Coefs(nextCoef, RunValues(b, n)) == all
  }

  lemma ProgressStep(b: Bits, n: nat, nextCoef: int, coefs: seq<int>, all: seq<int>, last: Bits)
    requires n > 0 && Progress(b, n, nextCoef, coefs, all, last)
    ensures UeReady(b, 30) && UeLength(b) <= |b|
    ensures var c := Remainder(nextCoef + SeValue(b) + 256, 256);
      Progress(b[UeLength(b)..], n - 1, c, coefs + [c], all, last)
  {
    RunStep(b, n);
    CoefsStep(nextCoef, SeValue(b), RunValues(b[UeLength(b)..], n - 1));
    var c := NextCoef(nextCoef, SeValue(b));
    var rest := Coefs(c, RunValues(b[UeLength(b)..], n - 1));
    hide RunValues, RunRest, RunReady, Coefs;
    assert (coefs + [c]) + rest == coefs + ([c] + rest);
  }

  lemma ProgressEnds(b: Bits, nextCoef: int, coefs: seq<int>, all: seq<int>, last: Bits)
    requires Progress(b, 0, nextCoef, coefs, all, last)
    ensures coefs == all && b == last
  {
  }

  lemma Scatter(m: seq<int>, scan: seq<nat>, cells: seq<Cell>, w: nat, coefs: seq<int>)
    requires |cells| == |coefs| <= |scan| && forall i :: 0 <= i < |cells| ==> scan[i] == Raster(cells[i], w) < |m|
    requires forall i :: 0 <= i < |cells| ==> scan[i] < |m| && m[scan[i]] == coefs[i]
    ensures Scattered(m, cells, w, coefs)
  {
  }

  // ----- The whole list

  // The bits of a matrix.
  function EncodeList(m: seq<int>, dc: int, sizeId: nat): Bits {
    var coefs := Gather(m, ListScan(sizeId), ListWidth(sizeId));
    if sizeId > SCALING_LIST_8x8 then EncodeSe(dc - 8) + EncodeRun(Deltas(dc, coefs))
    else EncodeRun(Deltas(SCALING_LIST_START_VALUE, coefs))
  }

  lemma EncodedRun(start: int, coefs: seq<int>, rest: Bits)
    requires IsCoef(start) && AllCoefs(coefs)
    ensures var b := EncodeRun(Deltas(start, coefs)) + rest;
      RunReady(b, |coefs|) && RunRest(b, |coefs|) == rest && Coefs(start, RunValues(b, |coefs|)) == coefs
  {
    hide RunReady, RunValues, RunRest, EncodeRun, Deltas, Coefs;
    RunRoundTrip(Deltas(start, coefs), rest);
    DecodeOfEncode(start, coefs);
  }

  // Decoding the bits of a matrix restores its coefficients in scan order and its DC value, and consumes exactly
  // these bits.
  lemma ListRoundTrip(m: seq<int>, dc: int, sizeId: nat, rest: Bits)
    requires AllCoefs(m) && IsCoef(dc)
    ensures var b := EncodeList(m, dc, sizeId) + rest;
      && ListReady(b, sizeId) && ListRest(b, sizeId) == rest
      && DecodedCoefs(b, sizeId) == Gather(m, ListScan(sizeId), ListWidth(sizeId))
      && (sizeId > SCALING_LIST_8x8 ==> StartOf(b, sizeId) == dc)
  {
    ListScanIsScan(sizeId);
    hide RunReady, RunValues, RunRest, EncodeRun, Deltas, Coefs, ListScan, ListWidth, CoefNum, IsScan;
    var coefs := Gather(m, ListScan(sizeId), ListWidth(sizeId));
    if sizeId > SCALING_LIST_8x8 {
      var tail := EncodeRun(Deltas(dc, coefs)) + rest;
      EncodedRun(dc, coefs, rest);
      assert EncodeList(m, dc, sizeId) + rest == EncodeSe(dc - 8) + tail;
      SeRoundTrip(dc - 8, tail);
      ShortPrefix(dc - 8, tail);
    } else {
      EncodedRun(SCALING_LIST_START_VALUE, coefs, rest);
    }
  }

  lemma ListArea(sizeId: nat)
    ensures ListWidth(sizeId) > 0 && ListWidth(sizeId) * ListWidth(sizeId) == CoefNum(sizeId)
  {
  }

  lemma GatherScatters(m: seq<int>, cells: seq<Cell>, w: nat)
    requires w * w <= |m| && forall i :: 0 <= i < |cells| ==> Raster(cells[i], w) < w * w
    ensures Scattered(m, cells, w, Gather(m, cells, w))
  {
  }

  // The matrix that the decoder leaves is the one that was encoded.
  lemma MatrixRestored(m: seq<int>, n: seq<int>, sizeId: nat)
    requires |m| == |n| == CoefNum(sizeId)
    requires Scattered(n, ListScan(sizeId), ListWidth(sizeId), Gather(m, ListScan(sizeId), ListWidth(sizeId)))
    ensures n == m
  {
    var cells, w := ListScan(sizeId), ListWidth(sizeId);
    hide *;
    ListArea(sizeId);
    ListScanIsScan(sizeId);
    ScanInside(cells, w);
    GatherScatters(m, cells, w);
    forall r | 0 <= r < |m|
      ensures n[r] == m[r]
    {
      ScatteredUnique(m, n, cells, w, Gather(m, cells, w), r);
    }
  }
}
