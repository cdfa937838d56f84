// The 3D colour table: predicted cells and the octree parser that fills them.
module ColourTable {
  import opened Bits
  import opened ExpGolomb
  import opened BitReader
  import opened ColourOctree

  datatype Yuv = Yuv(y: int, u: int, v: int)

  // Conversion to the 16-bit pixel type.
  function ToPel(x: int): (r: int)
    ensures -32768 <= r <= 32767
    ensures -32768 <= x <= 32767 ==> r == x
  {
    (x + 32768) % 65536 - 32768
  }

  function ToPels(p: Yuv): Yuv {
    Yuv(ToPel(p.y), ToPel(p.u), ToPel(p.v))
  }

  // The residual of a vertex, scaled by the quantisation.
  function Scaled(x: Vertex, q: nat): Yuv {
    match x
    case Skipped => Yuv(0, 0, 0)
    case Coded(dy, du, dv) => Yuv(Shl(dy, q), Shl(du, q), Shl(dv, q))
  }

  function Plus(a: Yuv, b: Yuv): Yuv {
    Yuv(a.y + b.y, a.u + b.u, a.v + b.v)
  }

  // The identity mapping: what the bottom row is predicted from.
  function Base(i: nat): Yuv {
    Yuv(if i == 0 then 1024 else 0, if i == 1 then 1024 else 0, if i == 2 then 1024 else 0)
  }

  // Table coefficients have 12 bits.
  predicate TwelveBits(p: Yuv) {
    -2048 <= p.y <= 2047 && -2048 <= p.u <= 2047 && -2048 <= p.v <= 2047
  }

  // n bits in two's complement.
  ghost predicate FitsBits(x: int, n: nat)
    requires n > 0
  {
    0 - Pow2(n - 1) <= x < Pow2(n - 1)
  }

  lemma TwelveBitsExactly(p: Yuv)
    ensures TwelveBits(p) <==> FitsBits(p.y, 12) && FitsBits(p.u, 12) && FitsBits(p.v, 12)
  {
    assert Pow2(11) == 2048;
  }

  function Below(c: Cell): Cell
    requires c.y > 0
  {
    Cell(c.y - 1, c.u, c.v, c.i)
  }

  // The value that a residual makes of a prediction.
  function Reconstruct(p: Yuv, x: Vertex, q: nat): Yuv {
    ToPels(Plus(p, Scaled(x, q)))
  }

  ghost function ReconstructWith(q: nat): (Yuv, Vertex) -> Yuv {
    (p: Yuv, x: Vertex) => Reconstruct(p, x, q)
  }

  // The written cells: each one was written above a written one, and holds the 12-bit value that its
  // residual makes of the value below it, or of the identity mapping on the bottom row.
  ghost predicate Correct(res: map<Cell, Vertex>, val: map<Cell, Yuv>, next: (Yuv, Vertex) -> Yuv) {
    && res.Keys == val.Keys
    && (forall c {:trigger Below(c)} :: c in res && c.y > 0 ==> Below(c) in res)
    && (forall c {:trigger val[c]} :: c in res ==> TwelveBits(val[c]))
    && (forall c {:trigger res[c]} :: c in res ==>
          val[c] == next(if c.y == 0 then Base(c.i) else val[Below(c)], res[c]))
  }

  lemma CorrectExtends(res: map<Cell, Vertex>, val: map<Cell, Yuv>, next: (Yuv, Vertex) -> Yuv, c: Cell, x: Vertex, v: Yuv)
    requires Correct(res, val, next) && c !in res
    requires c.y > 0 ==> Below(c) in res
    requires TwelveBits(v) && v == next(if c.y == 0 then Base(c.i) else val[Below(c)], x)
    ensures Correct(res[c := x], val[c := v], next)
  {
  }

  class Table {
    const octantDepth: nat     // cm_octant_depth
    const partNumLog2: nat     // cm_y_part_num_log2
    const resQuantBit: nat
    const flcBits: nat         // the remainder bits of a residual
    const cells: array4<Yuv>
    ghost var residual: map<Cell, Vertex>  // the cells written so far, with what they were written from
    ghost var value: map<Cell, Yuv>        // and what they hold
    ghost const plan: Cell -> Vertex       // what all cells are to be written from

    ghost predicate Inside(c: Cell)
    {
      c.y < cells.Length0 && c.u < cells.Length1 && c.v < cells.Length2 && c.i < cells.Length3
    }

    ghost predicate Stored()
      reads this`value, cells
    {
      forall c :: c in value ==> Inside(c) && cells[c.y, c.u, c.v, c.i] == value[c]
    }

    ghost predicate Valid()
      reads this, cells
    {
      Stored() && Correct(residual, value, ReconstructWith(resQuantBit)) && Follows(residual, value)
    }

    // The value that the planned residuals give a cell.
    ghost function Planned(c: Cell): Yuv
      decreases c.y
    {
      ReconstructWith(resQuantBit)(if c.y == 0 then Base(c.i) else Planned(Below(c)), plan(c))
    }

    // The written cells are as planned.
    ghost predicate Follows(res: map<Cell, Vertex>, val: map<Cell, Yuv>) {
      res.Keys == val.Keys &&
      forall c {:trigger res[c]} {:trigger val[c]} :: c in res ==> res[c] == plan(c) && val[c] == Planned(c)
    }

    lemma FollowsExtends(res: map<Cell, Vertex>, val: map<Cell, Yuv>, c: Cell, r: Yuv)
      requires Follows(res, val) && r == Planned(c)
      ensures Follows(res[c := plan(c)], val[c := r])
    {
      hide Planned;
    }

    // The value of a cell, from the value below it.
    lemma PlannedFrom(c: Cell, p: Yuv)
      requires Follows(residual, value) && (c.y > 0 ==> Below(c) in residual)
      requires p == if c.y == 0 then Base(c.i) else value[Below(c)]
      ensures ReconstructWith(resQuantBit)(p, plan(c)) == Planned(c)
    {
      assert c.y > 0 ==> value[Below(c)] == Planned(Below(c));
    }

    lemma Exceeds(c: Cell)
      requires Inside(c) && !TwelveBits(Planned(c))
      ensures Overflows()
    {
    }

    // Some cell is planned to exceed 12 bits.
    ghost predicate Overflows() {
      exists c :: Inside(c) && !TwelveBits(Planned(c))
    }

    // A table with all cells written is as planned, and all its cells have 12 bits.
    lemma WrittenAsPlanned()
      requires Valid() && forall c :: Inside(c) ==> c in residual
      ensures !Overflows() && forall c :: c in residual ==> residual[c] == plan(c)
    {
      forall c | Inside(c)
        ensures TwelveBits(Planned(c))
      {
        assert c in residual && value[c] == Planned(c);
      }
    }

    // create.
    constructor (octantDepth: nat, partNumLog2: nat, resQuantBit: nat, flcBits: nat,
                 ghost plan: Cell -> Vertex)
      ensures this.plan == plan && this.octantDepth == octantDepth && this.partNumLog2 == partNumLog2
      ensures this.resQuantBit == resQuantBit && this.flcBits == flcBits
      ensures Valid() && residual == map[] && fresh(cells)
      ensures cells.Length0 == Pow2(octantDepth + partNumLog2)
      ensures cells.Length1 == cells.Length2 == Pow2(octantDepth) && cells.Length3 == 4
    {
      this.octantDepth, this.partNumLog2 := octantDepth, partNumLog2;
      this.resQuantBit, this.flcBits, this.plan := resQuantBit, flcBits, plan;
      this.residual, this.value := map[], map[];
      cells := new Yuv[Pow2(octantDepth + partNumLog2), Pow2(octantDepth), Pow2(octantDepth), 4]((_, _, _, _) => Yuv(0, 0, 0));
    }

    // xGetCuboidVertexPredAll.
    method GetPrediction(c: Cell) returns (p: Yuv)
      requires Valid() && Inside(c) && (c.y > 0 ==> Below(c) in residual)
      ensures p == if c.y == 0 then Base(c.i) else value[Below(c)]
    {
      StoredBelow(c);
      hide *;
      p := if c.y == 0 then Base(c.i) else cells[c.y - 1, c.u, c.v, c.i];
    }

    lemma StoredBelow(c: Cell)
      requires Valid() && Inside(c) && (c.y > 0 ==> Below(c) in residual)
      ensures c.y < cells.Length0 && c.u < cells.Length1 && c.v < cells.Length2 && c.i < cells.Length3
      ensures c.y > 0 ==> Below(c) in value && cells[c.y - 1, c.u, c.v, c.i] == value[Below(c)]
    {
      hide ReconstructWith, Planned, Correct, Follows;
      Parts();
      if c.y > 0 {
        assert Below(c) in value;
      }
    }

    // setCuboidVertexResTree: writes a cell that was not written, above one that was.
    // The result is false when the source's 12-bit assertion fails.
    method SetResidual(c: Cell, x: Vertex) returns (ok: bool)
      requires Valid() && Inside(c) && c !in residual && x == plan(c)
      requires c.y > 0 ==> Below(c) in residual
      modifies cells, this`residual, this`value
      ensures ok ==> Valid() && residual == old(residual)[c := x]
      ensures ok <==> TwelveBits(Planned(c))
      ensures !ok ==> Overflows()
    {
      hide ReconstructWith, TwelveBits, Base, Planned, Overflows, Correct, Follows, Stored, Inside, Valid;
      Parts();
      var p := GetPrediction(c);
      PlannedFrom(c, p);
      var r;
      r, ok := Compute(p, x);
      FollowsExtends(residual, value, c, r);
      if ok {
        CorrectExtends(residual, value, ReconstructWith(resQuantBit), c, x, r);
      } else {
        Exceeds(c);
      }
      residual := residual[c := x];
      Store(c, r);
      if ok {
        Whole();
      }
    }

    lemma Parts()
      requires Valid()
      ensures Stored() && Correct(residual, value, ReconstructWith(resQuantBit)) && Follows(residual, value)
      ensures residual.Keys == value.Keys
    {
      hide Correct, ReconstructWith, Stored;
    }

    lemma Whole()
      requires Stored() && Correct(residual, value, ReconstructWith(resQuantBit)) && Follows(residual, value)
      ensures Valid()
    {
    }

    method Compute(p: Yuv, x: Vertex) returns (r: Yuv, ok: bool)
      ensures r == ReconstructWith(resQuantBit)(p, x) && ok == TwelveBits(r)
    {
      r := Reconstruct(p, x, resQuantBit);
      ok := TwelveBits(r);
    }

    method Store(c: Cell, r: Yuv)
      requires Stored() && Inside(c) && c !in value
      modifies cells, this`value
      ensures Stored() && value == old(value)[c := r]
    {
      cells[c.y, c.u, c.v, c.i] := r;
      value := value[c := r];
    }

    // getCuboidVertexResTree: it gives a coded residual back if and only if the scaled residual fits the
    // 16-bit pixel type.
    method GetResidual(c: Cell) returns (d: Yuv)
      requires Valid() && c in residual && resQuantBit <= 3
      ensures d == Deltas(residual[c]) <==> FitsPel(residual[c], resQuantBit)
    {
      assert TwelveBits(Base(c.i));
      hide Correct, ToPels, TwelveBits, FitsPel, Deltas, Scaled, Dequantised;
      CellOf(residual, value, ReconstructWith(resQuantBit), c);
      var p := GetPrediction(c);
      var r := cells[c.y, c.u, c.v, c.i];
      var q := resQuantBit;
      d := Dequantised(r, p, q);
      ResidualBack(p, residual[c], q);
    }
  }

  // The difference between a cell and its prediction, scaled back.
  function Dequantised(r: Yuv, p: Yuv, q: nat): Yuv {
    Yuv(ToPel(Shr(r.y - p.y, q)), ToPel(Shr(r.u - p.u, q)), ToPel(Shr(r.v - p.v, q)))
  }

  ghost function Deltas(x: Vertex): Yuv {
    match x
    case Skipped => Yuv(0, 0, 0)
    case Coded(dy, du, dv) => Yuv(dy, du, dv)
  }

  predicate InPel(x: int) {
    -32768 <= x <= 32767
  }

  // The scaled residual is within the pixel type: what a caller can check before coding it.
  predicate FitsPel(x: Vertex, q: nat) {
    var s := Scaled(x, q);
    InPel(s.y) && InPel(s.u) && InPel(s.v)
  }

  lemma CellOf(res: map<Cell, Vertex>, val: map<Cell, Yuv>, next: (Yuv, Vertex) -> Yuv, c: Cell)
    requires Correct(res, val, next) && c in res
    ensures c in val && (c.y > 0 ==> Below(c) in val && Below(c) in res && TwelveBits(val[Below(c)]))
    ensures TwelveBits(val[c])
    ensures val[c] == next(if c.y == 0 then Base(c.i) else val[Below(c)], res[c])
  {
    if c.y > 0 {
      assert Below(c) in res;
    }
  }

  // One component of a residual, after it went through a 12-bit cell.
  lemma ComponentBack(p: int, d: int, q: nat)
    requires q <= 3 && -2048 <= p <= 2047 && -2048 <= ToPel(p + Shl(d, q)) <= 2047
    ensures ToPel(Shr(ToPel(p + Shl(d, q)) - p, q)) == d <==> InPel(Shl(d, q))
  {
    hide Shr, Shl, Pow2;
    var r := ToPel(p + Shl(d, q));
    ShrOfShl(d, q);
    ShlOfShr(r - p, q);
    ShrSmall(r - p, q);
    PowerSmall(q);
  }

  lemma PowerSmall(q: nat)
    requires q <= 3
    ensures Pow2(q) <= 8
  {
    assert Pow2(3) == 8 && Pow2(2) == 4 && Pow2(1) == 2;
  }

  lemma {:induction false} ShrSmall(x: int, q: nat)
    requires -4095 <= x <= 4095
    ensures -4095 <= Shr(x, q) <= 4095
    decreases q
  {
    if q > 0 {
      ShrSmall(x / 2, q - 1);
    }
  }

  lemma ResidualBack(p: Yuv, x: Vertex, q: nat)
    requires q <= 3 && TwelveBits(p) && TwelveBits(Reconstruct(p, x, q))
    ensures Dequantised(Reconstruct(p, x, q), p, q) == Deltas(x) <==> FitsPel(x, q)
  {
    hide ToPel, Shr, Shl, InPel;
    var d := Deltas(x);
    ShlZero(q);
    ComponentBack(p.y, d.y, q);
    ComponentBack(p.u, d.u, q);
    ComponentBack(p.v, d.v, q);
  }

  lemma {:induction false} ShlZero(q: nat)
    ensures Shl(0, q) == 0
  {
    if q > 0 {
      ShlZero(q - 1);
    }
  }

  // ----- What a column adds up to

  // The sum of the scaled residuals at or below a cell.
  ghost function ColumnSum(res: map<Cell, Vertex>, c: Cell, q: nat): Yuv
    decreases c.y
  {
    if c !in res then Yuv(0, 0, 0)
    else Plus(if c.y == 0 then Yuv(0, 0, 0) else ColumnSum(res, Below(c), q), Scaled(res[c], q))
  }

  lemma ToPelAbsorbs(a: int, b: int)
    ensures ToPel(ToPel(a) + b) == ToPel(a + b)
  {
  }

  // Every cell holds the identity mapping plus the residuals at or below it, in the pixel type.
  lemma {:induction false} CellIsColumnSum(res: map<Cell, Vertex>, val: map<Cell, Yuv>, c: Cell, q: nat)
    requires Correct(res, val, ReconstructWith(q)) && c in res
    ensures val[c] == ToPels(Plus(Base(c.i), ColumnSum(res, c, q)))
    decreases c.y
  {
    hide ToPel, Scaled, Correct;
    CellOf(res, val, ReconstructWith(q), c);
    if c.y > 0 {
      CellIsColumnSum(res, val, Below(c), q);
      AbsorbSum(Plus(Base(c.i), ColumnSum(res, Below(c), q)), Scaled(res[c], q));
    }
  }

  lemma AbsorbSum(s: Yuv, x: Yuv)
    ensures ToPels(Plus(ToPels(s), x)) == ToPels(Plus(s, x))
  {
    hide ToPel;
    ToPelAbsorbs(s.y, x.y);
    ToPelAbsorbs(s.u, x.u);
    ToPelAbsorbs(s.v, x.v);
  }

  // Cell a is in the column of cell c, and not above it.
  predicate AtOrBelow(a: Cell, c: Cell) {
    a.y <= c.y && a.u == c.u && a.v == c.v && a.i == c.i
  }

  ghost predicate ExactAt(res: map<Cell, Vertex>, val: map<Cell, Yuv>, c: Cell, q: nat)
    requires c in val
  {
    val[c] == Plus(Base(c.i), ColumnSum(res, c, q))
  }

  // The cells up to c hold the plain sums.
  ghost predicate ColumnExact(res: map<Cell, Vertex>, val: map<Cell, Yuv>, c: Cell, q: nat)
    requires res.Keys == val.Keys
  {
    forall a {:trigger val[a]} :: a in res && AtOrBelow(a, c) ==> ExactAt(res, val, a, q)
  }

  // The residuals up to c fit the pixel type.
  ghost predicate ColumnFits(res: map<Cell, Vertex>, c: Cell, q: nat) {
    forall a {:trigger res[a]} :: a in res && AtOrBelow(a, c) ==> FitsPel(res[a], q)
  }

  // The cells of a column, up to some height, hold the plain sums if and only if their residuals fit the
  // pixel type.
  lemma {:induction false} CellIsExactSum(res: map<Cell, Vertex>, val: map<Cell, Yuv>, c: Cell, q: nat)
    requires Correct(res, val, ReconstructWith(q)) && c in res
    ensures ColumnExact(res, val, c, q) <==> ColumnFits(res, c, q)
    decreases c.y
  {
    CellOf(res, val, ReconstructWith(q), c);
    hide Correct, ExactAt, FitsPel;
    if c.y > 0 {
      CellIsExactSum(res, val, Below(c), q);
      assert forall a :: AtOrBelow(a, c) <==> a == c || AtOrBelow(a, Below(c));
      if ColumnExact(res, val, Below(c), q) {
        assert ExactAt(res, val, Below(c), q) by {
          assert val[Below(c)] == val[Below(c)];
        }
        ExactHere(res, val, c, q);
      }
    } else {
      assert forall a :: AtOrBelow(a, c) <==> a == c;
      ExactHere(res, val, c, q);
    }
  }

  // Above an exact cell, a cell is exact if and only if its residual fits.
  lemma ExactHere(res: map<Cell, Vertex>, val: map<Cell, Yuv>, c: Cell, q: nat)
    requires Correct(res, val, ReconstructWith(q)) && c in res
    requires c.y > 0 ==> Below(c) in val && ExactAt(res, val, Below(c), q)
    ensures c in val && (ExactAt(res, val, c, q) <==> FitsPel(res[c], q))
  {
    CellOf(res, val, ReconstructWith(q), c);
    hide Correct, ToPel, Scaled, InPel;
    var p := if c.y == 0 then Base(c.i) else val[Below(c)];
    ExactStep(p, Scaled(res[c], q));
  }

  // A 12-bit result of a 12-bit value and a residual has not wrapped if and only if the residual is a pixel.
  lemma ExactStep(p: Yuv, x: Yuv)
    requires TwelveBits(p) && TwelveBits(ToPels(Plus(p, x)))
    ensures ToPels(Plus(p, x)) == Plus(p, x) <==> InPel(x.y) && InPel(x.u) && InPel(x.v)
  {
  }

  // A residual of 65536 leaves the cell as predicted, passes the 12-bit check, and is lost.
  lemma LargeResidualIsLost()
    ensures var p, x := Base(0), Coded(65536, 0, 0);
      && GoodVertex(x, 0) && TwelveBits(p) && Reconstruct(p, x, 0) == p
      && Dequantised(Reconstruct(p, x, 0), p, 0) == Yuv(0, 0, 0) != Deltas(x) && !FitsPel(x, 0)
  {
    LostFacts(0);
    hide ToPel, Shl, Shr, Scaled, Fits32, InPel;
  }

  lemma LostFacts(q: nat)
    requires q == 0
    ensures Scaled(Coded(65536, 0, 0), q) == Yuv(65536, 0, 0) && Shl(65536, q) == 65536 && Shl(0, q) == 0
    ensures Fits32(65536, q) && Fits32(0, q) && !InPel(65536)
    ensures ToPel(1024 + 65536) == 1024 && ToPel(0) == 0 && Shr(0, q) == 0
  {
  }

  // ----- The identity mapping

  // The mapping of a sample by the four vertices of a cell (section F.8.1.4.1 of H.265), with its shift.
  ghost function Mapped(p0: Yuv, p1: Yuv, p2: Yuv, p3: Yuv, y: int, u: int, v: int, shift: nat): Yuv
    requires shift > 0
  {
    var half := Pow2(shift - 1);
    Yuv(Shr(p0.y * y + p1.y * u + p2.y * v + half, shift) + p3.y,
        Shr(p0.u * y + p1.u * u + p2.u * v + half, shift) + p3.u,
        Shr(p0.v * y + p1.v * u + p2.v * v + half, shift) + p3.v)
  }

  // A sample reduced by k bits, rounded.
  ghost function Reduced(x: int, k: nat): int {
    if k == 0 then x else Shr(x + Pow2(k - 1), k)
  }

  lemma {:induction false} ShrUnique(d: int, n: nat, q: int)
    requires q * Pow2(n) <= d < q * Pow2(n) + Pow2(n)
    ensures Shr(d, n) == q
    decreases n
  {
    if n > 0 {
      var p := Pow2(n - 1);
      assert q * Pow2(n) == 2 * (q * p);
      ShrUnique(d / 2, n - 1, q);
    }
  }

  lemma {:induction false} ShrTwice(d: int, a: nat, b: nat)
    ensures Shr(d, a + b) == Shr(Shr(d, a), b)
    decreases a
  {
    if a > 0 {
      ShrTwice(d / 2, a - 1, b);
    }
  }

  // 2^n times a sample, mapped with a shift of n + k, is the sample reduced by k bits.
  lemma UnitWeight(x: int, n: nat, k: nat)
    requires n > 0
    ensures Shr(Pow2(n) * x + Pow2(n + k - 1), n + k) == Reduced(x, k)
  {
    hide Pow2, Shr;
    HalfPower(n);
    if k == 0 {
      WeightUnique(x, Pow2(n), Pow2(n - 1), n);
    } else {
      PowersAdd(k - 1, n);
      var w := x + Pow2(k - 1);
      WeightedSum(x, Pow2(k - 1), Pow2(n));
      WeightUnique(w, Pow2(n), 0, n);
      ShrTwice(Pow2(n) * w, n, k);
    }
  }

  lemma WeightUnique(x: int, one: nat, r: nat, n: nat)
    requires one == Pow2(n) && r < one
    ensures Shr(one * x + r, n) == x
  {
    hide Shr, Pow2;
    assert one * x == x * one;
    ShrUnique(one * x + r, n, x);
  }

  lemma WeightedSum(x: int, a: int, one: int)
    ensures one * (x + a) == one * x + a * one
  {
  }

  lemma HalfPower(n: nat)
    requires n > 0
    ensures Pow2(n) == 2 * Pow2(n - 1)
  {
  }

  lemma WeightOfOne()
    ensures Pow2(10) == 1024
  {
  }

  // The base of the table is the identity mapping: every sample is mapped to itself, or, if the output has fewer bits,
  // to itself with that many bits less.
  lemma BaseIsIdentity(y: int, u: int, v: int, shift: nat)
    requires shift >= 10
    ensures Mapped(Base(0), Base(1), Base(2), Base(3), y, u, v, shift) ==
            Yuv(Reduced(y, shift - 10), Reduced(u, shift - 10), Reduced(v, shift - 10))
  {
    hide Shr, Pow2, Reduced;
    WeightOfOne();
    UnitWeight(y, 10, shift - 10);
    UnitWeight(u, 10, shift - 10);
    UnitWeight(v, 10, shift - 10);
  }

  // Without residuals, a column stays as the base.
  lemma {:induction false} UncodedIsBase(res: map<Cell, Vertex>, val: map<Cell, Yuv>, c: Cell, q: nat)
    requires Correct(res, val, ReconstructWith(q)) && c in res
    requires forall a :: a in res ==> res[a] == Skipped
    ensures c in val && val[c] == Base(c.i)
    decreases c.y
  {
    CellOf(res, val, ReconstructWith(q), c);
    hide Correct, ToPel;
    if c.y > 0 {
      UncodedIsBase(res, val, Below(c), q);
    }
    BaseKept(c.i, q);
  }

  lemma BaseKept(i: nat, q: nat)
    ensures Reconstruct(Base(i), Skipped, q) == Base(i)
  {
  }

  // A table without residuals maps every sample to itself.
  lemma UncodedIsIdentity(res: map<Cell, Vertex>, val: map<Cell, Yuv>, q: nat, at: Cell, y: int, u: int, v: int)
    requires Correct(res, val, ReconstructWith(q)) && forall a :: a in res ==> res[a] == Skipped
    requires forall i: nat :: i < 4 ==> at.(i := i) in res
    ensures forall i: nat :: i < 4 ==> at.(i := i) in val
    ensures Mapped(val[at.(i := 0)], val[at.(i := 1)], val[at.(i := 2)], val[at.(i := 3)], y, u, v, 10) == Yuv(y, u, v)
  {
    hide Correct, Mapped, Base;
    forall i: nat | i < 4
      ensures at.(i := i) in val && val[at.(i := i)] == Base(i)
    {
      UncodedIsBase(res, val, at.(i := i), q);
    }
    BaseIsIdentity(y, u, v, 10);
  }
}
