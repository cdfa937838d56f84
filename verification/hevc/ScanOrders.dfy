// Scan orders of square blocks: the up-right diagonal scan of section 6.5.3 of H.265, the orders that go block
// by block, and what makes an order of cells a scan.
module ScanOrders {

  datatype Cell = Cell(y: nat, x: nat)

  // ----- Scans

  ghost predicate Distinct(s: seq<Cell>) {
    forall i, j :: 0 <= i < j < |s| ==> s[i] != s[j]
  }

  ghost predicate Inside(c: Cell, w: nat) {
    c.y < w && c.x < w
  }

  // s lists every cell of a square of side w exactly once.
  ghost predicate IsScan(s: seq<Cell>, w: nat) {
    |s| == w * w && Distinct(s) && forall c :: c in s <==> Inside(c, w)
  }

  lemma DistinctAppend(a: seq<Cell>, b: seq<Cell>)
    requires Distinct(a) && Distinct(b) && forall c :: c in a ==> c !in b
    ensures Distinct(a + b)
  {
    var s := a + b;
    forall i, j | 0 <= i < j < |s|
      ensures s[i] != s[j]
    {
      if i < |a| <= j {
        assert s[i] in a && s[j] in b;
      }
    }
  }

  // ----- The up-right diagonal scan

  // The cells of diagonal d from column x on: up and to the right, as far as they are inside.
  function Line(w: nat, d: nat, x: nat): seq<Cell>
    decreases d + 1 - x
  {
    if x > d then []
    else (if x < w && d - x < w then [Cell(d - x, x)] else []) + Line(w, d, x + 1)
  }

  // The first n diagonals.
  function Lines(w: nat, n: nat): seq<Cell> {
    if n == 0 then [] else Lines(w, n - 1) + Line(w, n - 1, 0)
  }

  function DiagScan(w: nat): seq<Cell>
    requires w >= 1
  {
    Lines(w, 2 * w - 1)
  }

  lemma {:induction false} LineBehind(w: nat, d: nat, x: nat)
    requires x >= w
    ensures Line(w, d, x) == []
    decreases d + 1 - x
  {
    if x <= d {
      LineBehind(w, d, x + 1);
    }
  }

  // The number of cells of diagonal d from column x on.
  function LineCount(w: nat, d: nat, x: nat): nat {
    if x > d || x >= w || d - (w - 1) > w - 1 then 0
    else if d - x < w then (if d < w then d + 1 - x else w - x)
    else 2 * w - 1 - d
  }

  lemma {:induction false} LineLength(w: nat, d: nat, x: nat)
    ensures |Line(w, d, x)| == LineCount(w, d, x)
    decreases d + 1 - x
  {
    if x <= d {
      LineLength(w, d, x + 1);
    }
  }

  lemma Gain(w: int, e: int)
    ensures e * (e + 1) == (e - 1) * e + 2 * e
    ensures e * (2 * w - 1 - e) == (e - 1) * (2 * w - 1 - (e - 1)) + 2 * (w - e)
  {
  }

  lemma {:induction false} LinesGrowing(w: nat, n: nat)
    requires n <= w
    ensures 2 * |Lines(w, n)| == n * (n + 1)
  {
    if n > 0 {
      LinesGrowing(w, n - 1);
      LineLength(w, n - 1, 0);
      Gain(w, n);
    }
  }

  lemma {:induction false} LinesShrinking(w: nat, e: nat)
    requires e < w
    ensures 2 * |Lines(w, w + e)| == w * (w + 1) + e * (2 * w - 1 - e)
  {
    if e == 0 {
      LinesGrowing(w, w);
    } else {
      LinesShrinking(w, e - 1);
      LineLength(w, w + e - 1, 0);
      Gain(w, e);
    }
  }

  lemma {:induction false} LinesLength(w: nat, n: nat)
    requires n >= 2 * w - 1 && w >= 1
    ensures |Lines(w, n)| == w * w
    decreases n
  {
    if n == 2 * w - 1 {
      LinesShrinking(w, w - 1);
      assert w * (w + 1) + (w - 1) * (2 * w - 1 - (w - 1)) == 2 * (w * w);
    } else {
      LinesLength(w, n - 1);
      LineLength(w, n - 1, 0);
    }
  }

  lemma {:induction false} LinesAtMost(w: nat, n: nat)
    requires w >= 1
    ensures |Lines(w, n)| <= w * w
    decreases 2 * w - n
  {
    if n >= 2 * w - 1 {
      LinesLength(w, n);
    } else {
      LinesAtMost(w, n + 1);
    }
  }

  // The scan is complete after 2w - 1 diagonals, and not earlier.
  lemma {:induction false} LinesStop(w: nat, n: nat)
    requires w >= 1
    ensures |Lines(w, n)| >= w * w <==> n >= 2 * w - 1
    decreases 2 * w - n
  {
    if n < 2 * w - 1 {
      LinesStop(w, n + 1);
      LineLength(w, n, 0);
      LinesAtMost(w, n + 1);
    } else {
      LinesLength(w, n);
    }
  }

  // The order of the diagonal scan: by diagonal, and from left to right on each.
  predicate Before(a: Cell, b: Cell) {
    a.y + a.x < b.y + b.x || (a.y + a.x == b.y + b.x && a.x < b.x)
  }

  ghost predicate Ordered(s: seq<Cell>) {
    forall i, j :: 0 <= i < j < |s| ==> Before(s[i], s[j])
  }

  lemma {:induction false} LineCells(w: nat, d: nat, x: nat, c: Cell)
    ensures c in Line(w, d, x) <==> Inside(c, w) && c.y + c.x == d && c.x >= x
    decreases d + 1 - x
  {
    if x <= d {
      LineCells(w, d, x + 1, c);
    }
  }

  lemma {:induction false} LineOrdered(w: nat, d: nat, x: nat)
    ensures Ordered(Line(w, d, x))
    decreases d + 1 - x
  {
    if x <= d {
      LineOrdered(w, d, x + 1);
      var rest := Line(w, d, x + 1);
      forall c | c in rest
        ensures Before(Cell(d - x, x), c)
      {
        LineCells(w, d, x + 1, c);
      }
      if x < w && d - x < w {
        OrderedAppend([Cell(d - x, x)], rest);
      }
    }
  }

  lemma OrderedAppend(a: seq<Cell>, b: seq<Cell>)
    requires Ordered(a) && Ordered(b) && forall c, e :: c in a && e in b ==> Before(c, e)
    ensures Ordered(a + b)
  {
    var s := a + b;
    forall i, j | 0 <= i < j < |s|
      ensures Before(s[i], s[j])
    {
      if i < |a| <= j {
        assert s[i] in a && s[j] in b;
      }
    }
  }

  lemma {:induction false} LinesCells(w: nat, n: nat, c: Cell)
    ensures c in Lines(w, n) <==> Inside(c, w) && c.y + c.x < n
  {
    if n > 0 {
      LinesCells(w, n - 1, c);
      LineCells(w, n - 1, 0, c);
    }
  }

  lemma {:induction false} LinesOrdered(w: nat, n: nat)
    ensures Ordered(Lines(w, n))
  {
    hide Lines, Line;
    LinesStep(w, n);
    if n > 0 {
      LinesOrdered(w, n - 1);
      LineOrdered(w, n - 1, 0);
      LinesBefore(w, n - 1);
      hide Ordered, Before;
      OrderedAppend(Lines(w, n - 1), Line(w, n - 1, 0));
    }
  }

  lemma LinesStep(w: nat, n: nat)
    ensures Lines(w, 0) == []
    ensures n > 0 ==> Lines(w, n) == Lines(w, n - 1) + Line(w, n - 1, 0)
  {
  }

  // The cells of the first diagonals come before those of the next.
  lemma LinesBefore(w: nat, n: nat)
    ensures forall c, e :: c in Lines(w, n) && e in Line(w, n, 0) ==> Before(c, e)
  {
    forall c, e | c in Lines(w, n) && e in Line(w, n, 0)
      ensures Before(c, e)
    {
      LinesCells(w, n, c);
      LineCells(w, n, 0, e);
    }
  }

  // The diagonal scan lists all cells of the square, each once, diagonal by diagonal.
  lemma DiagScanIsScan(w: nat)
    requires w >= 1
    ensures IsScan(DiagScan(w), w) && Ordered(DiagScan(w))
  {
    var s := DiagScan(w);
    LinesLength(w, 2 * w - 1);
    LinesOrdered(w, 2 * w - 1);
    forall c
      ensures c in s <==> Inside(c, w)
    {
      LinesCells(w, 2 * w - 1, c);
    }
    forall i, j | 0 <= i < j < |s|
      ensures s[i] != s[j]
    {
      assert Before(s[i], s[j]);
    }
  }

  // It is the only such list.
  lemma {:induction false} OrderedUnique(s: seq<Cell>, t: seq<Cell>)
    requires Ordered(s) && Ordered(t) && forall c :: c in s <==> c in t
    ensures s == t
    decreases |s|
  {
    assert s != [] ==> s[0] in t;
    assert t != [] ==> t[0] in s;
    if s != [] {
      assert s[0] == t[0];
      Tail(s);
      Tail(t);
      OrderedUnique(s[1..], t[1..]);
      assert s == [s[0]] + s[1..] && t == [t[0]] + t[1..];
    }
  }

  lemma Tail(s: seq<Cell>)
    requires s != [] && Ordered(s)
    ensures Ordered(s[1..]) && forall c :: c in s[1..] <==> c in s && c != s[0]
  {
    forall c | c in s && c != s[0]
      ensures c in s[1..]
    {
      var i :| 0 <= i < |s| && s[i] == c;
      assert s[1..][i - 1] == c;
    }
    forall c | c in s[1..]
      ensures c != s[0]
    {
      var i :| 0 <= i < |s| - 1 && s[1..][i] == c;
      assert Before(s[0], s[i + 1]);
    }
  }

  lemma DiagScanUnique(w: nat, s: seq<Cell>)
    requires w >= 1 && IsScan(s, w) && Ordered(s)
    ensures s == DiagScan(w)
  {
    DiagScanIsScan(w);
    OrderedUnique(s, DiagScan(w));
  }

  // ----- Rows and columns

  function RowCells(y: nat, n: nat): seq<Cell> {
    if n == 0 then [] else RowCells(y, n - 1) + [Cell(y, n - 1)]
  }

  // The first n rows of a width, row by row.
  function Rows(w: nat, n: nat): seq<Cell> {
    if n == 0 then [] else Rows(w, n - 1) + RowCells(n - 1, w)
  }

  function Flip(s: seq<Cell>): (t: seq<Cell>)
    ensures |t| == |s| && forall i :: 0 <= i < |s| ==> t[i] == Cell(s[i].x, s[i].y)
  {
    seq(|s|, i requires 0 <= i < |s| => Cell(s[i].x, s[i].y))
  }

  lemma {:induction false} RowMember(y: nat, n: nat, c: Cell)
    ensures c in RowCells(y, n) <==> c.y == y && c.x < n
  {
    if n > 0 {
      RowMember(y, n - 1, c);
    }
  }

  lemma {:induction false} RowFacts(y: nat, n: nat)
    ensures |RowCells(y, n)| == n && Distinct(RowCells(y, n))
  {
    if n > 0 {
      RowFacts(y, n - 1);
      RowMember(y, n - 1, Cell(y, n - 1));
      DistinctAppend(RowCells(y, n - 1), [Cell(y, n - 1)]);
    }
  }

  lemma {:induction false} RowsLength(w: nat, n: nat)
    ensures |Rows(w, n)| == n * w
  {
    if n > 0 {
      RowsLength(w, n - 1);
      RowFacts(n - 1, w);
      assert n * w == (n - 1) * w + w;
    }
  }

  lemma RowsStep(w: nat, n: nat)
    ensures Rows(w, 0) == []
    ensures n > 0 ==> Rows(w, n) == Rows(w, n - 1) + RowCells(n - 1, w)
  {
  }

  lemma {:induction false} RowsCells(w: nat, n: nat, c: Cell)
    ensures c in Rows(w, n) <==> c.y < n && c.x < w
  {
    hide Rows, RowCells;
    RowsStep(w, n);
    if n > 0 {
      RowMember(n - 1, w, c);
      RowsCells(w, n - 1, c);
    }
  }

  lemma {:induction false} RowsDistinct(w: nat, n: nat)
    ensures Distinct(Rows(w, n))
  {
    hide Rows, RowCells;
    RowsStep(w, n);
    if n > 0 {
      var above, row := Rows(w, n - 1), RowCells(n - 1, w);
      RowsDistinct(w, n - 1);
      RowFacts(n - 1, w);
      RowsApart(w, n - 1);
      hide Distinct;
      DistinctAppend(above, row);
    }
  }

  // The rows before a row have none of its cells.
  lemma RowsApart(w: nat, n: nat)
    ensures forall c :: c in Rows(w, n) ==> c !in RowCells(n, w)
  {
    forall c | c in Rows(w, n)
      ensures c !in RowCells(n, w)
    {
      RowsCells(w, n, c);
      RowMember(n, w, c);
    }
  }

  lemma RowsIsScan(w: nat)
    ensures IsScan(Rows(w, w), w)
  {
    RowsLength(w, w);
    RowsDistinct(w, w);
    forall c
      ensures c in Rows(w, w) <==> Inside(c, w)
    {
      RowsCells(w, w, c);
    }
  }

  lemma FlipIsScan(s: seq<Cell>, w: nat)
    requires IsScan(s, w)
    ensures IsScan(Flip(s), w)
  {
    var t := Flip(s);
    forall c
      ensures c in t <==> Inside(c, w)
    {
      if Inside(c, w) {
        assert Inside(Cell(c.x, c.y), w);
        var i :| 0 <= i < |s| && s[i] == Cell(c.x, c.y);
        assert t[i] == c;
      }
      if c in t {
        var i :| 0 <= i < |t| && t[i] == c;
        assert s[i] in s;
      }
    }
    forall i, j | 0 <= i < j < |t|
      ensures t[i] != t[j]
    {
      assert s[i] != s[j];
    }
  }

  // ----- Block by block

  // The cells of a scan, moved.
  function Shift(base: Cell, s: seq<Cell>): (t: seq<Cell>)
    ensures |t| == |s| && forall i :: 0 <= i < |s| ==> t[i] == Cell(base.y + s[i].y, base.x + s[i].x)
  {
    seq(|s|, i requires 0 <= i < |s| => Cell(base.y + s[i].y, base.x + s[i].x))
  }

  lemma ShiftAppend(base: Cell, s: seq<Cell>, t: seq<Cell>)
    ensures Shift(base, s + t) == Shift(base, s) + Shift(base, t)
  {
  }

  // The corner of a 4x4 block.
  function Corner(block: Cell): Cell {
    Cell(4 * block.y, 4 * block.x)
  }

  // The 4x4 blocks in one order, the cells of each in another.
  function Blockwise(blocks: seq<Cell>, cells: seq<Cell>): (s: seq<Cell>)
    ensures |s| == |blocks| * |cells|
  {
    if blocks == [] then []
    else
      var n := |blocks| - 1;
      assert (n + 1) * |cells| == n * |cells| + |cells|;
      Blockwise(blocks[..n], cells) + Shift(Corner(blocks[n]), cells)
  }

  // Which cell stands where.
  lemma {:induction false} RowCellsAt(y: nat, n: nat, x: nat)
    requires x < n
    ensures |RowCells(y, n)| == n && RowCells(y, n)[x] == Cell(y, x)
  {
    RowFacts(y, n - 1);
    if x < n - 1 {
      RowCellsAt(y, n - 1, x);
    }
  }

  lemma {:induction false} RowsAt(w: nat, n: nat, y: nat, x: nat)
    requires y < n && x < w
    ensures y * w + x < |Rows(w, n)| && Rows(w, n)[y * w + x] == Cell(y, x)
  {
    hide Rows, RowCells;
    RowsStep(w, n);
    RowsLength(w, n - 1);
    RowCellsAt(n - 1, w, x);
    if y < n - 1 {
      RowsAt(w, n - 1, y, x);
    }
  }

  lemma {:induction false} BlockwiseAt(blocks: seq<Cell>, cells: seq<Cell>, b: nat, i: nat)
    requires b < |blocks| && i < |cells|
    ensures b * |cells| + i < |Blockwise(blocks, cells)|
    ensures Blockwise(blocks, cells)[b * |cells| + i] ==
            Cell(4 * blocks[b].y + cells[i].y, 4 * blocks[b].x + cells[i].x)
    decreases |blocks|
  {
    var n := |blocks| - 1;
    BlockwiseLast(blocks, cells);
    hide Blockwise, Shift;
    if b < n {
      BlockwiseAt(blocks[..n], cells, b, i);
    }
  }

  lemma BlockwiseLast(blocks: seq<Cell>, cells: seq<Cell>)
    requires blocks != []
    ensures var n := |blocks| - 1;
      && |Blockwise(blocks[..n], cells)| == n * |cells|
      && Blockwise(blocks, cells) == Blockwise(blocks[..n], cells) + Shift(Corner(blocks[n]), cells)
  {
    hide Shift;
  }

  lemma ShiftCells(block: Cell, cells: seq<Cell>, c: Cell)
    requires IsScan(cells, 4)
    ensures c in Shift(Corner(block), cells) <==> Cell(c.y / 4, c.x / 4) == block
    ensures Distinct(Shift(Corner(block), cells))
  {
    var t := Shift(Corner(block), cells);
    if Cell(c.y / 4, c.x / 4) == block {
      assert Cell(c.y % 4, c.x % 4) in cells;
      var i :| 0 <= i < |cells| && cells[i] == Cell(c.y % 4, c.x % 4);
      assert t[i] == c;
    }
    if c in t {
      var i :| 0 <= i < |t| && t[i] == c;
      assert cells[i] in cells;
    }
    forall i, j | 0 <= i < j < |t|
      ensures t[i] != t[j]
    {
      assert cells[i] != cells[j];
    }
  }

  lemma {:induction false} BlockwiseCells(blocks: seq<Cell>, cells: seq<Cell>, c: Cell)
    requires IsScan(cells, 4)
    ensures c in Blockwise(blocks, cells) <==> Cell(c.y / 4, c.x / 4) in blocks
    decreases |blocks|
  {
    if blocks != [] {
      var n := |blocks| - 1;
      BlockwiseCells(blocks[..n], cells, c);
      ShiftCells(blocks[n], cells, c);
      assert blocks == blocks[..n] + [blocks[n]];
    }
  }

  lemma {:induction false} BlockwiseDistinct(blocks: seq<Cell>, cells: seq<Cell>)
    requires IsScan(cells, 4) && Distinct(blocks)
    ensures Distinct(Blockwise(blocks, cells))
    decreases |blocks|
  {
    if blocks != [] {
      var n := |blocks| - 1;
      BlockwiseDistinct(blocks[..n], cells);
      ShiftCells(blocks[n], cells, Cell(0, 0));
      forall c | c in Blockwise(blocks[..n], cells)
        ensures c !in Shift(Corner(blocks[n]), cells)
      {
        BlockwiseCells(blocks[..n], cells, c);
        ShiftCells(blocks[n], cells, c);
        assert blocks[n] !in blocks[..n];
      }
      DistinctAppend(Blockwise(blocks[..n], cells), Shift(Corner(blocks[n]), cells));
    }
  }

  // Block by block is a scan whenever the order of the blocks and the order within a block are.
  lemma BlockwiseIsScan(blocks: seq<Cell>, cells: seq<Cell>, side: nat)
    requires IsScan(blocks, side) && IsScan(cells, 4)
    ensures IsScan(Blockwise(blocks, cells), 4 * side)
  {
    BlockwiseDistinct(blocks, cells);
    assert side * side * 16 == (4 * side) * (4 * side);
    forall c
      ensures c in Blockwise(blocks, cells) <==> Inside(c, 4 * side)
    {
      BlockwiseCells(blocks, cells, c);
      assert Cell(c.y / 4, c.x / 4) in blocks <==> Inside(Cell(c.y / 4, c.x / 4), side);
    }
  }
}
