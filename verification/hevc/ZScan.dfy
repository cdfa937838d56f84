// The z-order of the smallest blocks of a coding tree unit (section 6.5.2 of H.265) as tables that are filled
// recursively, inverted, and turned into sample positions.
module ZScan {
  import opened Bits

  function Pow4(n: nat): (r: nat)
    ensures r >= 1
  {
    if n == 0 then 1 else 4 * Pow4(n - 1)
  }

  // j << 2n and k >> 2n.
  function ShlTwice(j: nat, n: nat): nat {
    if n == 0 then j else 4 * ShlTwice(j, n - 1)
  }

  function ShrTwice(k: nat, n: nat): nat
    decreases n
  {
    if n == 0 then k else ShrTwice(k / 2 / 2, n - 1)
  }

  // The horizontal and vertical coordinates of a z-order index: its even and its odd bits.
  function Column(k: nat): nat {
    if k == 0 then 0 else k % 2 + 2 * Column(k / 2 / 2)
  }

  function Row(k: nat): nat {
    Column(k / 2)
  }

  // The z-order index of a position: its coordinates' bits interleaved.
  function Interleave(x: nat, y: nat): nat
    decreases x + y
  {
    if x == 0 && y == 0 then 0 else x % 2 + 2 * (y % 2 + 2 * Interleave(x / 2, y / 2))
  }

  lemma Digit(r: nat, upper: nat)
    requires r < 2
    ensures (r + 2 * upper) % 2 == r && (r + 2 * upper) / 2 == upper
  {
  }

  lemma ColumnUnfolds(k: nat)
    ensures Column(k) == k % 2 + 2 * Column(k / 2 / 2)
  {
  }

  lemma ColumnStep(k: nat)
    ensures Column(k) == k % 2 + 2 * Column(k / 2 / 2)
    ensures Column(k) % 2 == k % 2 && Column(k) / 2 == Column(k / 2 / 2)
  {
    hide Column;
    ColumnUnfolds(k);
    Digit(k % 2, Column(k / 2 / 2));
  }

  lemma {:induction false} InterleaveOfParts(k: nat)
    ensures Interleave(Column(k), Row(k)) == k
  {
    if k > 0 {
      InterleaveOfParts(k / 2 / 2);
      ColumnStep(k);
      ColumnStep(k / 2);
      InterleaveStep(Column(k), Row(k));
    }
  }

  lemma InterleaveUnfolds(x: nat, y: nat)
    ensures Interleave(x, y) == x % 2 + 2 * (y % 2 + 2 * Interleave(x / 2, y / 2))
  {
  }

  lemma InterleaveStep(x: nat, y: nat)
    ensures Interleave(x, y) == x % 2 + 2 * (y % 2 + 2 * Interleave(x / 2, y / 2))
    ensures Interleave(x, y) % 2 == x % 2 && Interleave(x, y) / 2 % 2 == y % 2
    ensures Interleave(x, y) / 2 / 2 == Interleave(x / 2, y / 2)
  {
    hide Interleave;
    InterleaveUnfolds(x, y);
    Digits(x % 2, y % 2, Interleave(x / 2, y / 2));
  }

  lemma Digits(a: nat, b: nat, m: nat)
    requires a < 2 && b < 2
    ensures var v := a + 2 * (b + 2 * m);
      v % 2 == a && v / 2 % 2 == b && v / 2 / 2 == m
  {
    Digit(a, b + 2 * m);
    Digit(b, m);
  }

  lemma {:induction false} PartsOfInterleave(x: nat, y: nat)
    ensures Column(Interleave(x, y)) == x && Row(Interleave(x, y)) == y
    decreases x + y
  {
    if x != 0 || y != 0 {
      PartsOfInterleave(x / 2, y / 2);
      InterleaveStep(x, y);
      var k := Interleave(x, y);
      hide Interleave;
      ColumnStep(k);
      ColumnStep(k / 2);
    }
  }

  // The first 4^n indexes are those of a square of side 2^n.
  lemma {:induction false} SquareOfRun(k: nat, n: nat)
    ensures k < Pow4(n) <==> Column(k) < Pow2(n) && Row(k) < Pow2(n)
  {
    hide Column, Row, Pow2, Pow4, Interleave;
    if n == 0 {
      InterleaveOfParts(k);
      FirstIndex(k);
    } else {
      var q, a, b := DigitStep(0, k);
      SquareOfRun(q, n - 1);
      LargerPowers(n);
    }
  }

  lemma FirstIndex(k: nat)
    ensures Pow2(0) == Pow4(0) == 1 && Interleave(0, 0) == 0 && (k == 0 ==> Column(k) == 0 && Row(k) == 0)
  {
  }

  lemma LargerPowers(n: nat)
    requires n > 0
    ensures Pow2(n) == 2 * Pow2(n - 1) && Pow4(n) == 4 * Pow4(n - 1)
  {
  }

  // The coordinates of an index shifted down by 2n bits are its coordinates shifted down by n bits.
  lemma {:induction false} ShiftedParts(k: nat, n: nat)
    ensures Column(ShrTwice(k, n)) == Shr(Column(k), n) && Row(ShrTwice(k, n)) == Shr(Row(k), n)
    decreases n
  {
    if n > 0 {
      ShiftedParts(k / 2 / 2, n - 1);
      ColumnStep(k);
      ColumnStep(k / 2);
    }
  }

  lemma {:induction false} ShrByTwo(k: nat, n: nat)
    ensures ShrTwice(k, n) == Shr(k, 2 * n)
    decreases n
  {
    if n > 0 {
      ShrByTwo(k / 2 / 2, n - 1);
    }
  }

  // Bit n of the horizontal coordinate is bit 2n of the index, bit n of the vertical one is bit 2n + 1.
  lemma PartBits(k: nat, n: nat)
    ensures Shr(Column(k), n) % 2 == Shr(k, 2 * n) % 2
    ensures Shr(Row(k), n) % 2 == Shr(k, 2 * n) / 2 % 2
  {
    hide Column, Row, Shr;
    ShiftedParts(k, n);
    ShrByTwo(k, n);
    LowBits(ShrTwice(k, n));
  }

  lemma LowBits(j: nat)
    ensures Column(j) % 2 == j % 2 && Row(j) % 2 == j / 2 % 2
  {
    ColumnStep(j);
    ColumnStep(j / 2);
  }

  // Every aligned run of 4^n indexes covers exactly one aligned square of side 2^n.
  lemma AlignedRuns(j: nat, k: nat, n: nat)
    ensures ShrTwice(k, n) == j <==> Shr(Column(k), n) == Column(j) && Shr(Row(k), n) == Row(j)
  {
    ShiftedParts(k, n);
    InterleaveOfParts(ShrTwice(k, n));
    InterleaveOfParts(j);
  }

  // The upper digits of an index are the index of the square, the lower ones the position in it.
  lemma {:induction false} RunOf(j: nat, r: nat, n: nat)
    requires r < Pow4(n)
    ensures Shl(Column(j), n) >= 0 && Shl(Row(j), n) >= 0
    ensures Column(ShlTwice(j, n) + r) == Shl(Column(j), n) + Column(r)
    ensures Row(ShlTwice(j, n) + r) == Shl(Row(j), n) + Row(r)
  {
    hide Column, Row, Pow4, Shl, ShlTwice;
    ShlGrows(Column(j), n);
    ShlGrows(Row(j), n);
    if n == 0 {
      RunOfNone(j, r);
    } else {
      Doubled(Column(j), n);
      Doubled(Row(j), n);
      Fourfold(j, n);
      var q, a, b := DigitStep(ShlTwice(j, n - 1), r);
      RunOf(j, q, n - 1);
    }
  }

  lemma RunOfNone(j: nat, r: nat)
    requires r < Pow4(0)
    ensures r == 0 && ShlTwice(j, 0) == j && Column(0) == 0 && Row(0) == 0
    ensures Shl(Column(j), 0) == Column(j) && Shl(Row(j), 0) == Row(j)
  {
  }

  lemma Doubled(j: nat, n: nat)
    requires n > 0
    ensures Shl(j, n) == 2 * Shl(j, n - 1)
  {
  }

  lemma Fourfold(j: nat, n: nat)
    requires n > 0
    ensures ShlTwice(j, n) == 4 * ShlTwice(j, n - 1) && Pow4(n) == 4 * Pow4(n - 1)
  {
  }

  // The two lowest digits of an index, and the others.
  lemma DigitStep(p: nat, r: nat) returns (q: nat, a: nat, b: nat)
    ensures r == 4 * q + 2 * b + a && a < 2 && b < 2
    ensures Column(4 * p + r) == a + 2 * Column(p + q) && Column(r) == a + 2 * Column(q)
    ensures Row(4 * p + r) == b + 2 * Row(p + q) && Row(r) == b + 2 * Row(q)
  {
    hide Column, Row;
    q, a, b := Apart(r);
    assert 4 * p + r == 4 * (p + q) + 2 * b + a;
    LowDigits(p + q, a, b);
    LowDigits(q, a, b);
  }

  lemma Apart(r: nat) returns (q: nat, a: nat, b: nat)
    ensures r == 4 * q + 2 * b + a && a < 2 && b < 2
  {
    q, a, b := r / 2 / 2, r % 2, r / 2 % 2;
  }

  lemma LowDigits(q: nat, a: nat, b: nat)
    requires a < 2 && b < 2
    ensures Column(4 * q + 2 * b + a) == a + 2 * Column(q) && Row(4 * q + 2 * b + a) == b + 2 * Row(q)
  {
    var k := 4 * q + 2 * b + a;
    Digits(a, b, q);
    hide Column;
    ColumnStep(k);
    ColumnStep(k / 2);
  }

  // ----- Filling the table

  // Where item number `index` starts, when items have a size.
  function Offset(index: nat, size: nat): nat {
    index * size
  }

  // The raster index, in rows of `stride`, of z-order index k of the block that starts at `start`.
  function Entry(start: nat, k: nat, stride: nat): nat {
    start + Column(k) + Offset(Row(k), stride)
  }

  ghost predicate Filled(a: seq<nat>, from: nat, count: nat, start: nat, stride: nat) {
    from + count <= |a| &&
    forall k: nat {:trigger Entry(start, k, stride)} :: k < count ==> a[from + k] == Entry(start, k, stride)
  }

  // Where the entries of quadrant q start to count.
  function QuadrantStart(start: nat, q: nat, step: nat, stride: nat): nat {
    start + (if q >= 2 then Offset(step, stride) else 0) + if q % 2 == 1 then step else 0
  }

  lemma {:induction false} ShlBit(b: nat, n: nat)
    requires b < 2
    ensures Shl(b, n) == if b == 1 then Pow2(n) else 0
  {
    if n > 0 {
      ShlBit(b, n - 1);
    }
  }

  lemma {:induction false} SmallShlTwice(n: nat)
    ensures ShlTwice(0, n) == 0 && ShlTwice(1, n) == Pow4(n)
    ensures ShlTwice(2, n) == 2 * Pow4(n) && ShlTwice(3, n) == 3 * Pow4(n)
  {
    if n > 0 {
      SmallShlTwice(n - 1);
    }
  }

  lemma SmallParts(q: nat)
    requires q < 4
    ensures Column(q) == (if q % 2 == 1 then 1 else 0) && Row(q) == (if q >= 2 then 1 else 0)
  {
  }

  lemma Distribute(a: nat, b: nat, c: nat)
    ensures Offset(a + b, c) == Offset(a, c) + Offset(b, c) && Offset(0, c) == 0
  {
  }

  // The entry of position k of quadrant q.
  lemma QuadrantEntry(start: nat, k: nat, stride: nat, n: nat, q: nat)
    requires q < 4 && k < Pow4(n)
    ensures Entry(start, ShlTwice(q, n) + k, stride) == Entry(QuadrantStart(start, q, Pow2(n), stride), k, stride)
  {
    hide Pow2, Pow4, Shl, ShlTwice, Column, Row, Offset, QuadrantStart;
    SmallParts(q);
    RunOf(q, k, n);
    ShlBit(Column(q), n);
    ShlBit(Row(q), n);
    Distribute(Shl(Row(q), n), Row(k), stride);
    StartOf(start, q, Pow2(n), stride, Column(q), Row(q));
  }

  lemma StartOf(start: nat, q: nat, step: nat, stride: nat, x: nat, y: nat)
    requires q < 4 && x == (if q % 2 == 1 then 1 else 0) && y == (if q >= 2 then 1 else 0)
    ensures QuadrantStart(start, q, step, stride) ==
            start + Offset(if y == 1 then step else 0, stride) + if x == 1 then step else 0
  {
    Distribute(0, 0, stride);
    hide Offset;
  }

  lemma QuadrantStarts(start: nat, step: nat, stride: nat)
    ensures QuadrantStart(start, 0, step, stride) == start
    ensures QuadrantStart(start, 1, step, stride) == start + step
    ensures QuadrantStart(start, 2, step, stride) == start + Offset(step, stride)
    ensures QuadrantStart(start, 3, step, stride) == start + Offset(step, stride) + step
  {
    hide Offset;
  }

  // Four filled quadrants make a filled block.
  lemma JoinQuadrants(a: seq<nat>, from: nat, start: nat, stride: nat, n: nat, size: nat, step: nat)
    requires size == Pow4(n) && step == Pow2(n)
    requires Filled(a, from, size, start, stride)
    requires Filled(a, from + size, size, start + step, stride)
    requires Filled(a, from + 2 * size, size, start + Offset(step, stride), stride)
    requires Filled(a, from + 3 * size, size, start + Offset(step, stride) + step, stride)
    ensures Filled(a, from, 4 * size, start, stride)
  {
    hide Offset, QuadrantStart, Pow2, Pow4, Entry, ShlTwice;
    QuadrantStarts(start, step, stride);
    SmallShlTwice(n);
    forall k: nat | k < 4 * size
      ensures a[from + k] == Entry(start, k, stride)
    {
      if k < size {
        QuadrantEntry(start, k, stride, n, 0);
      } else if k < 2 * size {
        QuadrantEntry(start, k - size, stride, n, 1);
        assert a[from + size + (k - size)] == a[from + k];
      } else if k < 3 * size {
        QuadrantEntry(start, k - 2 * size, stride, n, 2);
        assert a[from + 2 * size + (k - 2 * size)] == a[from + k];
      } else {
        QuadrantEntry(start, k - 3 * size, stride, n, 3);
        assert a[from + 3 * size + (k - 3 * size)] == a[from + k];
      }
    }
  }

  // Only the entries of one run have changed.
  ghost predicate OnlyRun(before: seq<nat>, after: seq<nat>, from: nat, count: nat) {
    |after| == |before| && forall i :: 0 <= i < |after| && !(from <= i < from + count) ==> after[i] == before[i]
  }

  lemma FrameFilled(t: seq<nat>, u: seq<nat>, from: nat, count: nat, start: nat, stride: nat, other: nat, size: nat)
    requires Filled(t, from, count, start, stride) && OnlyRun(t, u, other, size) && from + count <= other
    ensures Filled(u, from, count, start, stride)
  {
  }

  lemma JoinRuns(before: seq<nat>, t0: seq<nat>, t1: seq<nat>, t2: seq<nat>, t: seq<nat>, curr: nat, size: nat)
    requires OnlyRun(before, t0, curr, size) && OnlyRun(t0, t1, curr + size, size)
    requires OnlyRun(t1, t2, curr + 2 * size, size) && OnlyRun(t2, t, curr + 3 * size, size)
    ensures OnlyRun(before, t, curr, 4 * size)
  {
  }

  lemma FourFills(before: seq<nat>, t0: seq<nat>, t1: seq<nat>, t2: seq<nat>, t: seq<nat>, curr: nat,
                  start: nat, stride: nat, n: nat, size: nat, step: nat)
    requires size == Pow4(n) && step == Pow2(n)
    requires Filled(t0, curr, size, start, stride)
    requires Filled(t1, curr + size, size, start + step, stride) && OnlyRun(t0, t1, curr + size, size)
    requires Filled(t2, curr + 2 * size, size, start + Offset(step, stride), stride) && OnlyRun(t1, t2, curr + 2 * size, size)
    requires Filled(t, curr + 3 * size, size, start + Offset(step, stride) + step, stride) && OnlyRun(t2, t, curr + 3 * size, size)
    requires OnlyRun(before, t0, curr, size)
    ensures Filled(t, curr, 4 * size, start, stride) && OnlyRun(before, t, curr, 4 * size)
  {
    hide *;
    JoinRuns(before, t0, t1, t2, t, curr, size);
    FrameFilled(t0, t1, curr, size, start, stride, curr + size, size);
    FrameFilled(t1, t2, curr, size, start, stride, curr + 2 * size, size);
    FrameFilled(t2, t, curr, size, start, stride, curr + 3 * size, size);
    FrameFilled(t1, t2, curr + size, size, start + step, stride, curr + 2 * size, size);
    FrameFilled(t2, t, curr + size, size, start + step, stride, curr + 3 * size, size);
    FrameFilled(t2, t, curr + 2 * size, size, start + Offset(step, stride), stride, curr + 3 * size, size);
    JoinQuadrants(t, curr, start, stride, n, size, step);
  }

  lemma OneEntry(before: seq<nat>, t: seq<nat>, curr: nat, start: nat, stride: nat)
    requires curr < |before| && t == before[curr := start]
    ensures Filled(t, curr, 1, start, stride) && OnlyRun(before, t, curr, 1)
  {
    assert Row(0) == 0 && Offset(0, stride) == 0;
  }

  method InitZscanToRaster(table: array<nat>, maxDepth: nat, depth: nat, start: nat, curr: nat) returns (next: nat)
    requires 1 <= maxDepth && depth <= maxDepth && curr + Pow4(maxDepth - depth) <= table.Length
    modifies table
    ensures next == curr + Pow4(maxDepth - depth)
    ensures Filled(table[..], curr, Pow4(maxDepth - depth), start, Pow2(maxDepth - 1))
    ensures OnlyRun(old(table[..]), table[..], curr, Pow4(maxDepth - depth))
    decreases maxDepth - depth
  {
    hide Filled, OnlyRun, Pow4, Pow2, Shr, Offset;
    var stride := Pow2(maxDepth - 1);
    if depth == maxDepth {
      FirstIndex(0);
      table[curr] := start;
      next := curr + 1;
      OneEntry(old(table[..]), table[..], curr, start, stride);
    } else {
      var step := Shr(stride, depth);
      ghost var n := maxDepth - depth - 1;
      ShrOfPow2(n, depth);
      LargerPowers(n + 1);
      OffsetIs(step, stride);
      next := InitZscanToRaster(table, maxDepth, depth + 1, start, curr);
      ghost var t0 := table[..];
      next := InitZscanToRaster(table, maxDepth, depth + 1, start + step, next);
      ghost var t1 := table[..];
      next := InitZscanToRaster(table, maxDepth, depth + 1, start + step * stride, next);
      ghost var t2 := table[..];
      next := InitZscanToRaster(table, maxDepth, depth + 1, start + step * stride + step, next);
      FourFills(old(table[..]), t0, t1, t2, table[..], curr, start, stride, n, Pow4(n), step);
    }
  }

  lemma OffsetIs(index: nat, size: nat)
    ensures Offset(index, size) == index * size
  {
  }

  lemma ShrOfPow2(a: nat, b: nat)
    ensures Shr(Pow2(a + b), b) == Pow2(a)
  {
    PowersAdd(a, b);
    ShlMultiplies(Pow2(a), b);
    ShrOfShl(Pow2(a), b);
  }

  // ----- The inverse table

  // The z-order index of a raster index, in rows of p.
  function ZscanOf(r: nat, p: nat): nat
    requires p > 0
  {
    Interleave(r % p, r / p)
  }

  // What one entry of the filled table tells.
  lemma EntryParts(k: nat, n: nat, p: nat)
    requires k < Pow4(n) && p == Pow2(n)
    ensures Entry(0, k, p) < p * p && Entry(0, k, p) % p == Column(k) && Entry(0, k, p) / p == Row(k)
    ensures ZscanOf(Entry(0, k, p), p) == k
  {
    SquareOfRun(k, n);
    InterleaveOfParts(k);
    hide Column, Row, Interleave, Pow2, Pow4;
    assert Entry(0, k, p) == Row(k) * p + Column(k);
    DivideUnique(Entry(0, k, p), p, Row(k), Column(k));
    MultipleAtLeast(Row(k), p, p);
  }

  // Every position is that of its interleaved coordinates.
  lemma EntryOfPosition(x: nat, y: nat, n: nat, p: nat)
    requires p == Pow2(n) && x < p && y * p + x < p * p
    ensures Interleave(x, y) < Pow4(n) && Entry(0, Interleave(x, y), p) == y * p + x
  {
    hide Pow2, Pow4, Interleave, Column, Row;
    RowBound(x, y, p);
    PartsOfInterleave(x, y);
    SquareOfRun(Interleave(x, y), n);
  }

  lemma EntryOfIndex(r: nat, n: nat, p: nat)
    requires p == Pow2(n) && r < p * p
    ensures ZscanOf(r, p) < Pow4(n) && Entry(0, ZscanOf(r, p), p) == r
  {
    hide Pow2, Pow4, Interleave, Entry;
    DivideAndBack(r, p);
    EntryOfPosition(r % p, r / p, n, p);
  }

  lemma DivideAndBack(r: nat, p: nat)
    requires p > 0
    ensures r == (r / p) * p + r % p
  {
  }

  lemma RowBound(x: nat, y: nat, p: nat)
    requires y * p + x < p * p
    ensures y < p
  {
    if y > p {
      MultipleAtLeast(p, y, p);
    }
  }

  lemma {:induction false} PowSquare(n: nat)
    ensures Pow2(n) * Pow2(n) == Pow4(n)
  {
    if n > 0 {
      PowSquare(n - 1);
      assert Pow2(n) * Pow2(n) == 4 * (Pow2(n - 1) * Pow2(n - 1));
    }
  }

  // The number of smallest blocks along a side of a tree block.
  lemma PartsAlong(width: nat, depth: nat)
    requires 1 <= depth && 0 < width && width % Pow2(depth - 1) == 0
    ensures Shr(width, depth - 1) > 0 && width / Shr(width, depth - 1) == Pow2(depth - 1)
    ensures Shr(width, depth - 1) * Pow2(depth - 1) == width
  {
    var p := Pow2(depth - 1);
    var m := width / p;
    hide Pow2;
    assert width == m * p;
    ShlMultiplies(m, depth - 1);
    ShrOfShl(m, depth - 1);
    assert m > 0;
    DivideUnique(width, m, p, 0);
  }

  // The tree block of a width and a height can be cut into smallest blocks.
  predicate Divisible(width: nat, height: nat, maxDepth: nat) {
    1 <= maxDepth && 0 < width && 0 < height &&
    width % Pow2(maxDepth - 1) == 0 && height % Pow2(maxDepth - 1) == 0
  }

  method InitRasterToZscan(zscanToRaster: array<nat>, rasterToZscan: array<nat>,
                           maxCUWidth: nat, maxCUHeight: nat, maxDepth: nat)
    requires Divisible(maxCUWidth, maxCUHeight, maxDepth) && zscanToRaster != rasterToZscan
    requires Filled(zscanToRaster[..], 0, Pow4(maxDepth - 1), 0, Pow2(maxDepth - 1))
    requires Pow4(maxDepth - 1) <= rasterToZscan.Length
    modifies rasterToZscan
    ensures forall r: nat :: r < Pow4(maxDepth - 1) ==>
              rasterToZscan[r] == ZscanOf(r, Pow2(maxDepth - 1)) < Pow4(maxDepth - 1) &&
              zscanToRaster[rasterToZscan[r]] == r
    ensures forall k: nat :: k < Pow4(maxDepth - 1) ==>
              zscanToRaster[k] < Pow4(maxDepth - 1) && rasterToZscan[zscanToRaster[k]] == k
  {
    var minCUWidth := Shr(maxCUWidth, maxDepth - 1);
    var minCUHeight := Shr(maxCUHeight, maxDepth - 1);
    PartsAlong(maxCUWidth, maxDepth);
    PartsAlong(maxCUHeight, maxDepth);
    PowSquare(maxDepth - 1);
    var numPartInWidth := maxCUWidth / minCUWidth;
    var numPartInHeight := maxCUHeight / minCUHeight;
    Invert(zscanToRaster, rasterToZscan, numPartInWidth * numPartInHeight, numPartInWidth, maxDepth - 1);
  }

  // The loop of the inversion.
  method Invert(zscanToRaster: array<nat>, rasterToZscan: array<nat>, size: nat, ghost p: nat, ghost n: nat)
    requires zscanToRaster != rasterToZscan && p == Pow2(n) && size == p * p == Pow4(n) <= rasterToZscan.Length
    requires Filled(zscanToRaster[..], 0, size, 0, p)
    modifies rasterToZscan
    ensures forall r: nat :: r < size ==>
              rasterToZscan[r] == ZscanOf(r, p) < size && zscanToRaster[rasterToZscan[r]] == r
    ensures forall k: nat :: k < size ==> zscanToRaster[k] < size && rasterToZscan[zscanToRaster[k]] == k
  {
    hide Entry, ZscanOf, Pow2, Pow4;
    forall k: nat | k < size
      ensures zscanToRaster[k] == Entry(0, k, p) < size && ZscanOf(zscanToRaster[k], p) == k
    {
      EntryParts(k, n, p);
      assert zscanToRaster[..][0 + k] == Entry(0, k, p);
    }
    for i := 0 to size
      invariant forall k: nat :: k < i ==> rasterToZscan[zscanToRaster[k]] == k
    {
      rasterToZscan[zscanToRaster[i]] := i;
    }
    forall r: nat | r < size
      ensures rasterToZscan[r] == ZscanOf(r, p) < size && zscanToRaster[rasterToZscan[r]] == r
    {
      EntryOfIndex(r, n, p);
    }
  }

  // ----- Sample positions

  function ColumnOf(i: nat, parts: nat): nat
    requires parts > 0
  {
    if i < parts then i else ColumnOf(i - parts, parts)
  }

  lemma {:induction false} ColumnOfIsRemainder(i: nat, parts: nat)
    requires parts > 0
    ensures ColumnOf(i, parts) == i % parts
  {
    if i >= parts {
      ColumnOfIsRemainder(i - parts, parts);
      var q, r := (i - parts) / parts, (i - parts) % parts;
      assert i - parts == q * parts + r;
      assert (q + 1) * parts == q * parts + parts;
      DivideUnique(i, parts, q + 1, r);
    } else {
      DivideUnique(i, parts, 0, i);
    }
  }

  lemma ColumnOfStep(i: nat, parts: nat)
    requires parts > 0
    ensures i < parts ==> ColumnOf(i, parts) == i
    ensures ColumnOf(i + parts, parts) == ColumnOf(i, parts)
  {
  }

  lemma OffsetStep(index: nat, size: nat)
    ensures Offset(index + 1, size) == Offset(index, size) + size && Offset(0, size) == 0
  {
  }

  // The horizontal and the vertical position of each raster index, in rows of `parts`.
  ghost predicate ColumnPositions(pel: seq<nat>, size: nat, parts: nat, width: nat) {
    0 < parts && size <= |pel| && forall i: nat :: i < size ==> pel[i] == Offset(i % parts, width)
  }

  ghost predicate RowPositions(pel: seq<nat>, size: nat, parts: nat, width: nat) {
    0 < parts && size <= |pel| && forall i: nat :: i < size ==> pel[i] == Offset(i / parts, width)
  }

  method InitRasterToPelXY(pelX: array<nat>, pelY: array<nat>, maxCUWidth: nat, maxCUHeight: nat, maxDepth: nat)
    requires Divisible(maxCUWidth, maxCUHeight, maxDepth) && pelX != pelY
    requires Pow4(maxDepth - 1) <= pelX.Length && Pow4(maxDepth - 1) <= pelY.Length && pelY[0] == 0
    modifies pelX, pelY
    ensures ColumnPositions(pelX[..], Pow4(maxDepth - 1), Pow2(maxDepth - 1), Shr(maxCUWidth, maxDepth - 1))
    ensures RowPositions(pelY[..], Pow4(maxDepth - 1), Pow2(maxDepth - 1), Shr(maxCUWidth, maxDepth - 1))
  {
    var minCUWidth := Shr(maxCUWidth, maxDepth - 1);
    var minCUHeight := Shr(maxCUHeight, maxDepth - 1);
    PartsAlong(maxCUWidth, maxDepth);
    PartsAlong(maxCUHeight, maxDepth);
    PowSquare(maxDepth - 1);
    var numPartInWidth := maxCUWidth / minCUWidth;
    var numPartInHeight := maxCUHeight / minCUHeight;
    hide *;
    FillPelX(pelX, numPartInWidth, numPartInHeight, minCUWidth);
    FillPelY(pelY, numPartInWidth, numPartInWidth * numPartInHeight, minCUWidth);
  }

  method FillPelX(pelX: array<nat>, parts: nat, rows: nat, minCUWidth: nat)
    requires 0 < parts && 0 < rows && parts * rows <= pelX.Length
    modifies pelX
    ensures ColumnPositions(pelX[..], parts * rows, parts, minCUWidth)
  {
    MultipleAtLeast(0, rows, parts);
    hide Offset, ColumnOf;
    OffsetStep(0, minCUWidth);
    ColumnOfStep(0, parts);
    pelX[0] := 0;
    for i := 1 to parts
      invariant forall k: nat :: k < i ==> pelX[k] == Offset(ColumnOf(k, parts), minCUWidth)
    {
      OffsetStep(i - 1, minCUWidth);
      ColumnOfStep(i - 1, parts);
      ColumnOfStep(i, parts);
      pelX[i] := pelX[i - 1] + minCUWidth;
    }
    var at := parts;
    for i := 1 to rows
      invariant at == i * parts <= pelX.Length
      invariant forall k: nat :: k < at ==> pelX[k] == Offset(ColumnOf(k, parts), minCUWidth)
    {
      MultipleAtLeast(i, rows, parts);
      assert (i + 1) * parts == at + parts;
      MultipleAtLeast(0, i, parts);
      CopyRow(pelX, at, parts, minCUWidth);
      at := at + parts;
    }
    forall i: nat | i < at
      ensures pelX[..][i] == Offset(i % parts, minCUWidth)
    {
      ColumnOfIsRemainder(i, parts);
    }
  }

  // The memcpy of one row from the row above.
  method CopyRow(a: array<nat>, at: nat, parts: nat, ghost width: nat)
    requires 0 < parts <= at && at + parts <= a.Length
    requires forall k: nat :: k < at ==> a[k] == Offset(ColumnOf(k, parts), width)
    modifies a
    ensures forall k: nat :: k < at + parts ==> a[k] == Offset(ColumnOf(k, parts), width)
  {
    hide Offset, ColumnOf;
    for j := 0 to parts
      invariant forall k: nat :: k < at + j ==> a[k] == Offset(ColumnOf(k, parts), width)
    {
      ColumnOfStep(at + j - parts, parts);
      a[at + j] := a[at + j - parts];
    }
  }

  method FillPelY(pelY: array<nat>, parts: nat, size: nat, minCUWidth: nat)
    requires 0 < parts && 0 < size <= pelY.Length && pelY[0] == 0
    modifies pelY
    ensures RowPositions(pelY[..], size, parts, minCUWidth)
  {
    hide RowPositions;
    FirstRow(pelY[..], parts, minCUWidth);
    for i := 1 to size
      invariant RowPositions(pelY[..], i, parts, minCUWidth)
    {
      ghost var pel := pelY[..];
      var y: nat := (i / parts) * minCUWidth;
      NextRow(pel, i, parts, minCUWidth, y);
      pelY[i] := y;
      assert pelY[..] == pel[i := y];
    }
  }

  lemma FirstRow(pel: seq<nat>, parts: nat, width: nat)
    requires 0 < parts && 0 < |pel| && pel[0] == 0
    ensures RowPositions(pel, 1, parts, width)
  {
    assert 0 / parts == 0;
  }

  lemma NextRow(pel: seq<nat>, i: nat, parts: nat, width: nat, x: nat)
    requires RowPositions(pel, i, parts, width) && i < |pel| && x == i / parts * width
    ensures RowPositions(pel[i := x], i + 1, parts, width)
  {
    assert x == Offset(i / parts, width);
    hide Offset;
  }

  // Vertical positions are counted in block widths. They are right if and only if the smallest blocks are square,
  // or there is only one row of them.
  lemma VerticalPositions(width: nat, height: nat, p: nat)
    requires p >= 1
    ensures (forall i: nat :: i < p * p ==> Offset(i / p, width) == Offset(i / p, height)) <==> width == height || p == 1
  {
    if p == 1 {
      assert p * p == 1;
    } else {
      MultipleAtLeast(1, p, p);
      DivideUnique(p, p, 1, 0);
      assert Offset(p / p, width) == width && Offset(p / p, height) == height;
    }
  }
}
