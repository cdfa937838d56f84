// The coded octree of the 3D colour table (section F.7.3.2.3 of H.265): its shape, its bits, and the
// residual it gives to every cell of the table.
module ColourOctree {
  import opened Bits
  import opened ExpGolomb

  // One vertex of a leaf: the coded flag and the three residuals.
  datatype Vertex = Skipped | Coded(dy: int, du: int, dv: int)

  datatype Octant = Leaf(rows: seq<seq<Vertex>>) | Split(parts: seq<Octant>)

  datatype Cell = Cell(y: nat, u: nat, v: nat, i: nat)

  // A box of cells: `height` luma rows over side x side chroma columns, four vertices each.
  datatype Block = Block(y: nat, u: nat, v: nat, side: nat, height: nat)

  ghost predicate InBlock(c: Cell, b: Block) {
    && b.y <= c.y < b.y + b.height
    && b.u <= c.u < b.u + b.side
    && b.v <= c.v < b.v + b.side
    && c.i < 4
  }

  // The block of an octant at distance `depth` from the deepest level, with `parts` luma parts per side.
  ghost predicate IsBlock(b: Block, depth: nat, parts: nat) {
    b.side == Pow2(depth) && b.height == Pow2(depth) * parts
  }

  // The k-th of the eight sub-blocks, luma half first, then the two chroma halves.
  function SubBlock(b: Block, k: nat): Block
    requires k < 8
  {
    var half, rows := b.side / 2, b.height / 2;
    Block(if k < 4 then b.y else b.y + rows,
          if k % 4 < 2 then b.u else b.u + half,
          if k % 2 < 1 then b.v else b.v + half,
          half, rows)
  }

  // The sub-block that a cell lies in.
  function PartOf(b: Block, c: Cell): nat {
    (if c.y < b.y + b.height / 2 then 0 else 4)
    + (if c.u < b.u + b.side / 2 then 0 else 2)
    + (if c.v < b.v + b.side / 2 then 0 else 1)
  }

  lemma PartsPartition(b: Block, c: Cell, k: nat)
    requires k < 8 && b.side % 2 == 0 && b.height % 2 == 0
    ensures InBlock(c, SubBlock(b, k)) <==> InBlock(c, b) && PartOf(b, c) == k
  {
  }

  lemma SubBlockIsBlock(b: Block, depth: nat, parts: nat, k: nat)
    requires IsBlock(b, depth + 1, parts) && k < 8
    ensures b.side % 2 == 0 && b.height % 2 == 0
    ensures IsBlock(SubBlock(b, k), depth, parts)
  {
    assert b.height == 2 * (Pow2(depth) * parts);
  }

  // ----- Shape

  // A residual that the 32-bit arithmetic of the table carries without overflow.
  ghost predicate Fits32(d: int, q: nat) {
    -0x4000_0000 <= Shl(d, q) <= 0x4000_0000
  }

  ghost predicate GoodVertex(x: Vertex, q: nat) {
    x.Coded? ==> Fits32(x.dy, q) && Fits32(x.du, q) && Fits32(x.dv, q)
  }

  ghost predicate GoodRow(row: seq<Vertex>, q: nat) {
    |row| == 4 && forall i :: 0 <= i < 4 ==> GoodVertex(row[i], q)
  }

  // An octree of at most `depth` further splits whose leaves have `parts` rows of four vertices.
  ghost predicate Shape(o: Octant, depth: nat, parts: nat, q: nat)
    decreases depth
  {
    match o
    case Leaf(rows) => |rows| == parts && forall l :: 0 <= l < |rows| ==> GoodRow(rows[l], q)
    case Split(ps) => depth > 0 && |ps| == 8 && forall k :: 0 <= k < 8 ==> Shape(ps[k], depth - 1, parts, q)
  }

  // The residual that the octree codes for a cell of its block: a leaf codes one vertex per luma part,
  // at the first row of the part and the first chroma column of the block.
  ghost function Residual(o: Octant, b: Block, c: Cell): Vertex
    decreases o
  {
    match o
    case Leaf(rows) =>
      if c.u == b.u && c.v == b.v && c.y >= b.y && b.side > 0 && (c.y - b.y) % b.side == 0
         && (c.y - b.y) / b.side < |rows| && c.i < |rows[(c.y - b.y) / b.side]|
      then rows[(c.y - b.y) / b.side][c.i]
      else Skipped
    case Split(ps) =>
      if PartOf(b, c) < |ps| then Residual(ps[PartOf(b, c)], SubBlock(b, PartOf(b, c)), c) else Skipped
  }

  // The same from the place of the cell in the block: of the eight parts, the luma half counts most, then the two
  // chroma halves.
  ghost function ResidualAt(o: Octant, side: nat, height: nat, y: nat, u: nat, v: nat, i: nat): Vertex
    decreases o
  {
    match o
    case Leaf(rows) =>
      if u == 0 && v == 0 && side > 0 && y % side == 0 && y / side < |rows| && i < |rows[y / side]|
      then rows[y / side][i]
      else Skipped
    case Split(ps) =>
      var l, m, n := Half(y, height), Half(u, side), Half(v, side);
      if 4 * l + 2 * m + n < |ps| then
        ResidualAt(ps[4 * l + 2 * m + n], side / 2, height / 2,
                   Inner(y, height), Inner(u, side), Inner(v, side), i)
      else Skipped
  }

  // Which half of a stretch a position is in, and where in the half.
  ghost function Half(x: nat, length: nat): nat {
    if x < length / 2 then 0 else 1
  }

  ghost function Inner(x: nat, length: nat): nat {
    if x < length / 2 then x else x - length / 2
  }

  lemma {:induction false} ResidualIs(o: Octant, b: Block, c: Cell, depth: nat, parts: nat, q: nat)
    requires Shape(o, depth, parts, q) && IsBlock(b, depth, parts) && InBlock(c, b)
    ensures Residual(o, b, c) == ResidualAt(o, b.side, b.height, c.y - b.y, c.u - b.u, c.v - b.v, c.i)
    decreases o
  {
    hide Shape, IsBlock, Residual, ResidualAt, InBlock, PartOf, SubBlock;
    match o
    case Leaf(rows) =>
      LeafResiduals(rows, b, c);
    case Split(ps) =>
      ResidualSplits(ps, b, c, depth, parts, q);
      var k := PartOf(b, c);
      PartShape(ps, b, c, depth, parts, q);
      ResidualIs(ps[k], SubBlock(b, k), c, depth - 1, parts, q);
      PartPlace(b, c);
  }

  lemma LeafResiduals(rows: seq<seq<Vertex>>, b: Block, c: Cell)
    requires InBlock(c, b)
    ensures c.y >= b.y && c.u >= b.u && c.v >= b.v
    ensures Residual(Leaf(rows), b, c) == ResidualAt(Leaf(rows), b.side, b.height, c.y - b.y, c.u - b.u, c.v - b.v, c.i)
  {
  }

  lemma PartShape(ps: seq<Octant>, b: Block, c: Cell, depth: nat, parts: nat, q: nat)
    requires Shape(Split(ps), depth, parts, q) && IsBlock(b, depth, parts) && InBlock(c, b) && PartOf(b, c) < 8
    ensures depth > 0 && |ps| == 8 && Shape(ps[PartOf(b, c)], depth - 1, parts, q)
    ensures IsBlock(SubBlock(b, PartOf(b, c)), depth - 1, parts) && InBlock(c, SubBlock(b, PartOf(b, c)))
  {
    SubBlockIsBlock(b, depth - 1, parts, PartOf(b, c));
    PartsPartition(b, c, PartOf(b, c));
  }

  lemma ResidualSplits(ps: seq<Octant>, b: Block, c: Cell, depth: nat, parts: nat, q: nat)
    requires Shape(Split(ps), depth, parts, q) && InBlock(c, b)
    ensures c.y >= b.y && c.u >= b.u && c.v >= b.v && |ps| == 8
    ensures PartOf(b, c) < 8 && Residual(Split(ps), b, c) == Residual(ps[PartOf(b, c)], SubBlock(b, PartOf(b, c)), c)
    ensures var y, u, v := c.y - b.y, c.u - b.u, c.v - b.v;
      ResidualAt(Split(ps), b.side, b.height, y, u, v, c.i) ==
      ResidualAt(ps[4 * Half(y, b.height) + 2 * Half(u, b.side) + Half(v, b.side)], b.side / 2, b.height / 2,
                 Inner(y, b.height), Inner(u, b.side), Inner(v, b.side), c.i)
  {
  }

  // The part of a cell, and its place in that part.
  lemma PartPlace(b: Block, c: Cell)
    requires InBlock(c, b)
    ensures var y, u, v, sub := c.y - b.y, c.u - b.u, c.v - b.v, SubBlock(b, PartOf(b, c));
      && PartOf(b, c) == 4 * Half(y, b.height) + 2 * Half(u, b.side) + Half(v, b.side)
      && sub.side == b.side / 2 && sub.height == b.height / 2
      && c.y - sub.y == Inner(y, b.height) && c.u - sub.u == Inner(u, b.side) && c.v - sub.v == Inner(v, b.side)
  {
  }

  // ----- Bits

  // A residual value: quotient, remainder of r bits, sign unless zero.
  function EncodeParam(d: int, r: nat): Bits {
    var a := Magnitude(d);
    EncodeUe(Shr(a, r)) + (ToBits(a, r) + (if a == 0 then [] else [d < 0]))
  }

  function Magnitude(d: int): nat {
    if d < 0 then -d else d
  }

  // The residual is the quotient, shifted up by r bits, plus the remainder, and negative behind a sign bit of 1; the sign
  // bit is only coded for residuals other than 0.
  lemma ParamMeans(d: int, r: nat) returns (quotient: nat, remainder: Bits, sign: Bits)
    ensures EncodeParam(d, r) == EncodeUe(quotient) + (remainder + sign) && |remainder| == r
    ensures var symbol := quotient * Pow2(r) + Value(remainder);
      && |sign| == (if symbol == 0 then 0 else 1)
      && d == if symbol == 0 then 0 else (1 - 2 * Bit(sign[0])) * symbol
  {
    hide Pow2, Value, Shl, Shr, ToBits, EncodeUe;
    var a := Magnitude(d);
    quotient, remainder := Shr(a, r), ToBits(a, r);
    sign := if a == 0 then [] else [d < 0];
    HighAndLow(a, r);
    ShlMultiplies(quotient, r);
    SignedMagnitude(d);
  }

  lemma SignedMagnitude(d: int)
    ensures d == (1 - 2 * Bit(d < 0)) * Magnitude(d) && (Magnitude(d) == 0 <==> d == 0)
  {
  }

  function EncodeVertex(x: Vertex, r: nat): Bits {
    match x
    case Skipped => [false]
    case Coded(dy, du, dv) => [true] + (EncodeParam(dy, r) + (EncodeParam(du, r) + EncodeParam(dv, r)))
  }

  // The vertices of a row from the i-th on.
  function EncodeRow(row: seq<Vertex>, i: nat, r: nat): Bits
    requires i <= |row|
    decreases |row| - i
  {
    if i == |row| then [] else EncodeVertex(row[i], r) + EncodeRow(row, i + 1, r)
  }

  function EncodeRows(rows: seq<seq<Vertex>>, l: nat, r: nat): Bits
    requires l <= |rows|
    decreases |rows| - l
  {
    if l == |rows| then [] else EncodeRow(rows[l], 0, r) + EncodeRows(rows, l + 1, r)
  }

  // The split flag is only present above the deepest level.
  function EncodeOctant(o: Octant, depth: nat, r: nat): Bits
    decreases o, 1
  {
    (if depth > 0 then [o.Split?] else []) + OctantBody(o, depth, r)
  }

  // What follows the split flag.
  function OctantBody(o: Octant, depth: nat, r: nat): Bits
    decreases o, 0
  {
    match o
    case Leaf(rows) => EncodeRows(rows, 0, r)
    case Split(ps) => EncodeParts(ps, 0, if depth > 0 then depth - 1 else 0, r)
  }

  function EncodeParts(ps: seq<Octant>, k: nat, depth: nat, r: nat): Bits
    requires k <= |ps|
    decreases ps, |ps| - k
  {
    if k == |ps| then [] else EncodeOctant(ps[k], depth, r) + EncodeParts(ps, k + 1, depth, r)
  }
}
