// The scan tables as they are filled, at start-up, for all block sizes.
module ScanTables {
  import opened ScanOrders
  import Bits

  function Area(w: nat): nat {
    w * w
  }

  // The number of 4x4 blocks along a side.
  function Quarter(w: nat): nat {
    w / 4
  }

  // The widths that the tables are made for: a small block, or one made of 4x4 blocks.
  predicate Side(w: nat) {
    w >= 1 && (w <= 2 || w % 4 == 0)
  }

  // A cell as an index into a block of width w.
  function Raster(c: Cell, w: nat): nat {
    c.y * w + c.x
  }

  // The first n entries of a table are the cells of a list.
  ghost predicate Holds(table: array<nat>, n: nat, cells: seq<Cell>, w: nat)
    reads table
  {
    n == |cells| <= table.Length && forall i :: 0 <= i < n ==> table[i] == Raster(cells[i], w)
  }

  lemma RasterShift(base: Cell, c: Cell, w: nat)
    ensures Raster(Cell(base.y + c.y, base.x + c.x), w) == c.y * w + c.x + Raster(base, w)
  {
  }

  lemma ShiftOne(base: Cell, s: seq<Cell>, c: Cell)
    ensures Shift(base, s + [c]) == Shift(base, s) + [Cell(base.y + c.y, base.x + c.x)]
  {
  }

  // One entry of a table, for a cell counted from the base.
  method Put(table: array<nat>, at: nat, value: nat, w: nat, ghost done: seq<Cell>, ghost base: Cell,
             ghost seen: seq<Cell>, ghost c: Cell)
    requires Holds(table, at, done + Shift(base, seen), w) && at < table.Length
    requires value == c.y * w + c.x + Raster(base, w)
    modifies table
    ensures Holds(table, at + 1, done + Shift(base, seen + [c]), w)
  {
    RasterShift(base, c, w);
    hide Raster;
    ShiftOne(base, seen, c);
    ghost var cell := Cell(base.y + c.y, base.x + c.x);
    assert done + Shift(base, seen + [c]) == (done + Shift(base, seen)) + [cell];
    table[at] := value;
  }

  // One diagonal.
  method FillLine(table: array<nat>, at: nat, w: nat, size: nat, offset: nat, d: nat,
                  ghost done: seq<Cell>, ghost base: Cell)
    returns (next: nat)
    requires Holds(table, at, done, w) && at + |Line(size, d, 0)| <= table.Length && offset == Raster(base, w)
    modifies table
    ensures Holds(table, next, done + Shift(base, Line(size, d, 0)), w)
  {
    hide Raster, Holds, Line, Shift;
    var primDim: int, scndDim := d, 0;
    while primDim >= size
      invariant primDim == d - scndDim && scndDim <= d + 1 && Line(size, d, 0) == Line(size, d, scndDim)
      invariant Holds(table, at, done, w)
    {
      LineStep(size, d, scndDim);
      scndDim := scndDim + 1;
      primDim := primDim - 1;
    }
    next := at;
    ghost var seen: seq<Cell>, line := [], Line(size, d, 0);
    NothingShifted(done, base, line);
    while primDim >= 0 && scndDim < size
      invariant primDim == d - scndDim < size && scndDim <= d + 1
      invariant next == at + |seen|
      invariant Holds(table, next, done + Shift(base, seen), w)
      invariant seen + Line(size, d, scndDim) == line
      decreases primDim
    {
      ghost var c, rest := Cell(primDim, scndDim), Line(size, d, scndDim + 1);
      LineStep(size, d, scndDim);
      OneSeen(seen, c, rest, line);
      Put(table, next, primDim * w + scndDim + offset, w, done, base, seen, c);
      seen := seen + [c];
      next := next + 1;
      scndDim := scndDim + 1;
      primDim := primDim - 1;
    }
    LineEnds(size, d, scndDim);
    assert seen == seen + Line(size, d, scndDim) == line;
  }

  lemma NothingShifted(done: seq<Cell>, base: Cell, line: seq<Cell>)
    ensures done + Shift(base, []) == done && [] + line == line
  {
  }

  lemma LineStep(size: nat, d: nat, x: nat)
    requires x <= d
    ensures d - x >= size ==> Line(size, d, x) == Line(size, d, x + 1)
    ensures d - x < size && x < size ==> Line(size, d, x) == [Cell(d - x, x)] + Line(size, d, x + 1)
  {
  }

  lemma OneSeen(seen: seq<Cell>, c: Cell, rest: seq<Cell>, line: seq<Cell>)
    requires seen + ([c] + rest) == line
    ensures (seen + [c]) + rest == line && |seen| < |line|
  {
  }

  lemma LineEnds(size: nat, d: nat, x: nat)
    requires x > d || x >= size
    ensures Line(size, d, x) == []
  {
    if x >= size {
      LineBehind(size, d, x);
    }
  }

  // All diagonals of a square.
  method FillDiagonals(table: array<nat>, at: nat, w: nat, size: nat, offset: nat,
                       ghost done: seq<Cell>, ghost base: Cell)
    requires size >= 1 && Holds(table, at, done, w) && at + size * size <= table.Length && offset == Raster(base, w)
    modifies table
    ensures Holds(table, at + size * size, done + Shift(base, DiagScan(size)), w)
  {
    hide Holds, Raster, Lines, Line, Shift, DiagScan;
    var next := at;
    var scanLine := 0;
    var area := size * size;
    NoLines(done, base, size);
    while next < at + area
      invariant scanLine <= 2 * size - 1 && next == at + |Lines(size, scanLine)|
      invariant Holds(table, next, done + Shift(base, Lines(size, scanLine)), w)
      decreases 2 * size - 1 - scanLine
    {
      NextLine(done, base, size, scanLine, area);
      ghost var sofar := done + Shift(base, Lines(size, scanLine));
      HoldsLength(table, next, sofar, w);
      next := FillLine(table, next, w, size, offset, scanLine, sofar, base);
      scanLine := scanLine + 1;
      HoldsLength(table, next, done + Shift(base, Lines(size, scanLine)), w);
    }
    LastLine(size, scanLine, area);
  }

  lemma NoLines(done: seq<Cell>, base: Cell, size: nat)
    requires size >= 1
    ensures Lines(size, 0) == [] && done + Shift(base, Lines(size, 0)) == done && size * size >= 1
  {
  }

  // The next diagonal, while there is one.
  lemma NextLine(done: seq<Cell>, base: Cell, size: nat, n: nat, area: nat)
    requires size >= 1 && area == size * size && |Lines(size, n)| < area
    ensures n < 2 * size - 1 && |Lines(size, n)| + |Line(size, n, 0)| == |Lines(size, n + 1)| <= area
    ensures (done + Shift(base, Lines(size, n))) + Shift(base, Line(size, n, 0)) == done + Shift(base, Lines(size, n + 1))
    ensures |done + Shift(base, Lines(size, n + 1))| == |done + Shift(base, Lines(size, n))| + |Line(size, n, 0)|
  {
    LinesStop(size, n);
    LinesAtMost(size, n + 1);
    ShiftAppend(base, Lines(size, n), Line(size, n, 0));
  }

  lemma LastLine(size: nat, n: nat, area: nat)
    requires size >= 1 && area == size * size && n <= 2 * size - 1 && |Lines(size, n)| >= area
    ensures |Lines(size, n)| == area && Lines(size, n) == DiagScan(size)
  {
    LinesStop(size, n);
    LinesLength(size, n);
  }

  lemma HoldsLength(table: array<nat>, n: nat, cells: seq<Cell>, w: nat)
    requires Holds(table, n, cells, w)
    ensures n == |cells| <= table.Length
  {
  }

  // A square, row by row.
  method FillRows(table: array<nat>, at: nat, w: nat, height: nat, width: nat, offset: nat,
                  ghost done: seq<Cell>, ghost base: Cell)
    returns (next: nat)
    requires Holds(table, at, done, w) && at + height * width <= table.Length && offset == Raster(base, w)
    modifies table
    ensures Holds(table, next, done + Shift(base, Rows(width, height)), w)
  {
    hide Holds, Raster;
    next := at;
    assert done + Shift(base, []) == done;
    for y := 0 to height
      invariant next == at + y * width
      invariant Holds(table, next, done + Shift(base, Rows(width, y)), w)
    {
      assert (y + 1) * width == y * width + width;
      Bits.MultipleAtLeast(y, height, width);
      ghost var above := Rows(width, y);
      assert above + [] == above;
      for x := 0 to width
        invariant next == at + y * width + x
        invariant Holds(table, next, done + Shift(base, above + RowCells(y, x)), w)
      {
        Put(table, next, y * w + x + offset, w, done, base, above + RowCells(y, x), Cell(y, x));
        assert (above + RowCells(y, x)) + [Cell(y, x)] == above + RowCells(y, x + 1);
        next := next + 1;
      }
    }
  }

  // A square, column by column.
  method FillColumns(table: array<nat>, at: nat, w: nat, height: nat, width: nat, offset: nat,
                     ghost done: seq<Cell>, ghost base: Cell)
    returns (next: nat)
    requires Holds(table, at, done, w) && at + width * height <= table.Length && offset == Raster(base, w)
    modifies table
    ensures Holds(table, next, done + Shift(base, Flip(Rows(height, width))), w)
  {
    hide Holds, Raster;
    next := at;
    assert done + Shift(base, Flip([])) == done;
    for x := 0 to width
      invariant next == at + x * height
      invariant Holds(table, next, done + Shift(base, Flip(Rows(height, x))), w)
    {
      assert (x + 1) * height == x * height + height;
      Bits.MultipleAtLeast(x, width, height);
      ghost var before := Rows(height, x);
      assert before + [] == before;
      for y := 0 to height
        invariant next == at + x * height + y
        invariant Holds(table, next, done + Shift(base, Flip(before + RowCells(x, y))), w)
      {
        Put(table, next, y * w + x + offset, w, done, base, Flip(before + RowCells(x, y)), Cell(y, x));
        assert (before + RowCells(x, y)) + [Cell(x, y)] == before + RowCells(x, y + 1);
        assert Flip(before + RowCells(x, y)) + [Cell(y, x)] == Flip(before + RowCells(x, y + 1));
        next := next + 1;
      }
    }
  }

  // ----- Block by block

  // The diagonal scan, by the property that fixes it.
  ghost function OrderOfDiagonals(w: nat): (s: seq<Cell>)
    requires w >= 1
    ensures IsScan(s, w) && Ordered(s)
  {
    DiagScanIsScan(w);
    var s: seq<Cell> :| IsScan(s, w) && Ordered(s);
    s
  }

  // The order of the cells in a 4x4 block of a diagonal table.
  ghost function InnerScan(): seq<Cell> {
    OrderOfDiagonals(4)
  }

  // The order of the 4x4 blocks in a block of width 32.
  ghost function GroupScan(): seq<Cell> {
    OrderOfDiagonals(8)
  }

  lemma SmallScans(w: nat)
    requires w >= 1
    ensures OrderOfDiagonals(w) == DiagScan(w) && |DiagScan(w)| == w * w
  {
    DiagScanUnique(w, OrderOfDiagonals(w));
    DiagScanIsScan(w);
  }

  lemma SmallScansAreScans()
    ensures IsScan(InnerScan(), 4) && IsScan(GroupScan(), 8) && |InnerScan()| == 16
  {
  }

  lemma BlockwiseStep(blocks: seq<Cell>, b: Cell, cells: seq<Cell>)
    ensures Blockwise(blocks + [b], cells) == Blockwise(blocks, cells) + Shift(Corner(b), cells)
  {
    assert (blocks + [b])[..|blocks|] == blocks;
  }

  lemma CornerRaster(b: Cell, w: nat)
    ensures Raster(Corner(b), w) == 4 * (b.x + b.y * w) == b.y * 4 * w + b.x * 4
  {
  }

  // Taking a raster index apart gives the cell back.
  lemma RasterApart(c: Cell, w: nat)
    requires c.x < w
    ensures Raster(c, w) / w == c.y && Raster(c, w) - c.y * w == c.x
  {
    Bits.DivideUnique(Raster(c, w), w, c.y, c.x);
  }

  method FillDiagonalBlocks(table: array<nat>, w: nat, blockScan: array<nat>, ghost blocks: seq<Cell>)
    requires w > 4 && Side(w) && Area(w) <= table.Length && table != blockScan
    requires IsScan(blocks, Quarter(w)) && Holds(blockScan, |blocks|, blocks, Quarter(w))
    modifies table
    ensures Holds(table, Area(w), Blockwise(blocks, InnerScan()), w)
  {
    var numBlkSide := w / 4;
    var numBlks := numBlkSide * numBlkSide;
    SideSquared(numBlkSide, w);
    NoBlocks(table, blocks, w);
    ghost var room := Area(w);
    forall blk | 0 <= blk < numBlks
      ensures blockScan[blk] == Raster(blocks[blk], numBlkSide) && blocks[blk].x < numBlkSide
    {
      assert blocks[blk] in blocks;
    }
    assert |blocks| == numBlks && numBlkSide == Quarter(w) && 16 * numBlks == room;
    hide *;
    for blk := 0 to numBlks
      invariant Holds(table, 16 * blk, Blockwise(blocks[..blk], InnerScan()), w)
    {
      OffsetOf(blocks[blk], numBlkSide, w);
      var initBlkPos := blockScan[blk];
      var offsetY := initBlkPos / numBlkSide;
      var offsetX := initBlkPos - offsetY * numBlkSide;
      FillOneBlock(table, w, 16 * blk, 4 * (offsetX + offsetY * w), blocks, blk);
    }
    assert blocks[..numBlks] == blocks;
  }

  lemma NoBlocks(table: array<nat>, blocks: seq<Cell>, w: nat)
    ensures Holds(table, 0, Blockwise(blocks[..0], InnerScan()), w)
  {
    assert Blockwise([], InnerScan()) == [];
  }

  // The place of a block in the table of cells, from its place in the table of blocks.
  lemma OffsetOf(b: Cell, side: nat, w: nat)
    requires b.x < side
    ensures var pos := Raster(b, side); var y := pos / side; var x := pos - y * side;
      x >= 0 && 4 * (x + y * w) == Raster(Corner(b), w)
  {
    RasterApart(b, side);
    CornerRaster(b, w);
  }

  lemma InnerScanIs(w: nat)
    requires w == 4
    ensures InnerScan() == DiagScan(w) && |InnerScan()| == 16
  {
    SmallScans(w);
  }

  method FillOneBlock(table: array<nat>, w: nat, offsetScan: nat, offsetD: nat, ghost blocks: seq<Cell>, ghost blk: nat)
    requires blk < |blocks| && offsetScan == 16 * blk && offsetScan + 16 <= table.Length
    requires offsetD == Raster(Corner(blocks[blk]), w)
    requires Holds(table, 16 * blk, Blockwise(blocks[..blk], InnerScan()), w)
    modifies table
    ensures Holds(table, 16 * (blk + 1), Blockwise(blocks[..blk + 1], InnerScan()), w)
  {
    hide *;
    InnerScanIs(4);
    BlockwiseStep(blocks[..blk], blocks[blk], InnerScan());
    assert blocks[..blk + 1] == blocks[..blk] + [blocks[blk]];
    FillDiagonals(table, offsetScan, w, 4, offsetD, Blockwise(blocks[..blk], InnerScan()), Corner(blocks[blk]));
  }

  // One block of the horizontal table.
  method FillRowBlock(table: array<nat>, at: nat, w: nat, blkY: nat, blkX: nat, ghost blocks: seq<Cell>)
    returns (next: nat)
    requires Holds(table, at, Blockwise(blocks, Rows(4, 4)), w) && at + 16 <= table.Length
    modifies table
    ensures Holds(table, next, Blockwise(blocks + [Cell(blkY, blkX)], Rows(4, 4)), w) && next == at + 16
  {
    ghost var b := Cell(blkY, blkX);
    RowsLength(4, 4);
    CornerRaster(b, w);
    BlockwiseStep(blocks, b, Rows(4, 4));
    hide *;
    HoldsLength(table, at, Blockwise(blocks, Rows(4, 4)), w);
    next := FillRows(table, at, w, 4, 4, blkY * 4 * w + blkX * 4, Blockwise(blocks, Rows(4, 4)), Corner(b));
    HoldsLength(table, next, Blockwise(blocks + [b], Rows(4, 4)), w);
  }

  lemma NoneInRow(before: seq<Cell>, y: nat)
    ensures before + RowCells(y, 0) == before
  {
  }

  // One more cell of a row, and the same exchanged.
  lemma OneMoreInRow(before: seq<Cell>, y: nat, x: nat)
    ensures before + RowCells(y, x + 1) == (before + RowCells(y, x)) + [Cell(y, x)]
    ensures Flip(before + RowCells(y, x + 1)) == Flip(before + RowCells(y, x)) + [Cell(x, y)]
  {
    assert before + RowCells(y, x + 1) == (before + RowCells(y, x)) + [Cell(y, x)];
    hide RowCells;
  }

  // One line of blocks of the horizontal table.
  method FillRowOfBlocks(table: array<nat>, at: nat, w: nat, numBlkSide: nat, blkY: nat, ghost before: seq<Cell>)
    returns (next: nat)
    requires at == 16 * |before| && Holds(table, at, Blockwise(before, Rows(4, 4)), w)
    requires 16 * (|before| + numBlkSide) <= table.Length
    modifies table
    ensures next == at + 16 * numBlkSide
    ensures Holds(table, next, Blockwise(before + RowCells(blkY, numBlkSide), Rows(4, 4)), w)
  {
    hide Holds, Raster, Blockwise, RowCells, Rows;
    next := at;
    NoneInRow(before, blkY);
    for blkX := 0 to numBlkSide
      invariant next == at + 16 * blkX
      invariant Holds(table, next, Blockwise(before + RowCells(blkY, blkX), Rows(4, 4)), w)
    {
      ghost var blocks := before + RowCells(blkY, blkX);
      OneMoreInRow(before, blkY, blkX);
      next := FillRowBlock(table, next, w, blkY, blkX, blocks);
    }
  }

  // The horizontal table of blocks.
  method FillRowBlocks(table: array<nat>, w: nat, numBlkSide: nat)
    requires 16 * |Rows(numBlkSide, numBlkSide)| <= table.Length
    modifies table
    ensures Holds(table, 16 * |Rows(numBlkSide, numBlkSide)|, Blockwise(Rows(numBlkSide, numBlkSide), Rows(4, 4)), w)
  {
    var cnt := 0;
    assert Blockwise([], Rows(4, 4)) == [];
    assert Holds(table, 0, [], w);
    hide Holds, Raster, Blockwise;
    for blkY := 0 to numBlkSide
      invariant cnt == 16 * |Rows(numBlkSide, blkY)|
      invariant Holds(table, cnt, Blockwise(Rows(numBlkSide, blkY), Rows(4, 4)), w)
    {
      RowsMonotone(numBlkSide, blkY + 1, numBlkSide);
      RowFacts(blkY, numBlkSide);
      cnt := FillRowOfBlocks(table, cnt, w, numBlkSide, blkY, Rows(numBlkSide, blkY));
    }
  }

  // The horizontal table.
  method FillHorizontal(table: array<nat>, w: nat)
    requires Side(w) && Area(w) <= table.Length
    modifies table
    ensures Holds(table, Area(w), HorizontalScan(w), w)
  {
    ghost var origin := Cell(0, 0);
    if w > 2 {
      SideSquared(w / 4, w);
      RowsLength(w / 4, w / 4);
      FillRowBlocks(table, w, w / 4);
    } else {
      var cnt := FillRows(table, 0, w, w, w, 0, [], origin);
      RowsLength(w, w);
      assert Shift(origin, Rows(w, w)) == Rows(w, w);
    }
  }

  // One block of the vertical table.
  method FillColumnBlock(table: array<nat>, at: nat, w: nat, blkY: nat, blkX: nat, ghost blocks: seq<Cell>)
    returns (next: nat)
    requires Holds(table, at, Blockwise(blocks, Flip(Rows(4, 4))), w) && at + 16 <= table.Length
    modifies table
    ensures Holds(table, next, Blockwise(blocks + [Cell(blkY, blkX)], Flip(Rows(4, 4))), w) && next == at + 16
  {
    ghost var b := Cell(blkY, blkX);
    RowsLength(4, 4);
    CornerRaster(b, w);
    BlockwiseStep(blocks, b, Flip(Rows(4, 4)));
    hide *;
    HoldsLength(table, at, Blockwise(blocks, Flip(Rows(4, 4))), w);
    next := FillColumns(table, at, w, 4, 4, blkY * 4 * w + blkX * 4, Blockwise(blocks, Flip(Rows(4, 4))), Corner(b));
    HoldsLength(table, next, Blockwise(blocks + [b], Flip(Rows(4, 4))), w);
  }

  // One line of blocks of the vertical table.
  method FillColumnOfBlocks(table: array<nat>, at: nat, w: nat, numBlkSide: nat, blkX: nat, ghost before: seq<Cell>)
    returns (next: nat)
    requires at == 16 * |before| && Holds(table, at, Blockwise(Flip(before), Flip(Rows(4, 4))), w)
    requires 16 * (|before| + numBlkSide) <= table.Length
    modifies table
    ensures next == at + 16 * numBlkSide
    ensures Holds(table, next, Blockwise(Flip(before + RowCells(blkX, numBlkSide)), Flip(Rows(4, 4))), w)
  {
    hide Holds, Raster, Blockwise, RowCells, Rows, Flip;
    next := at;
    NoneInRow(before, blkX);
    for blkY := 0 to numBlkSide
      invariant next == at + 16 * blkY
      invariant Holds(table, next, Blockwise(Flip(before + RowCells(blkX, blkY)), Flip(Rows(4, 4))), w)
    {
      ghost var blocks := Flip(before + RowCells(blkX, blkY));
      OneMoreInRow(before, blkX, blkY);
      next := FillColumnBlock(table, next, w, blkY, blkX, blocks);
    }
  }

  // The vertical table of blocks.
  method FillColumnBlocks(table: array<nat>, w: nat, numBlkSide: nat)
    requires 16 * |Rows(numBlkSide, numBlkSide)| <= table.Length
    modifies table
    ensures Holds(table, 16 * |Rows(numBlkSide, numBlkSide)|, Blockwise(Flip(Rows(numBlkSide, numBlkSide)), Flip(Rows(4, 4))), w)
  {
    var cnt := 0;
    assert Blockwise(Flip([]), Flip(Rows(4, 4))) == [];
    assert Holds(table, 0, [], w);
    hide Holds, Raster, Blockwise;
    for blkX := 0 to numBlkSide
      invariant cnt == 16 * |Rows(numBlkSide, blkX)|
      invariant Holds(table, cnt, Blockwise(Flip(Rows(numBlkSide, blkX)), Flip(Rows(4, 4))), w)
    {
      RowsMonotone(numBlkSide, blkX + 1, numBlkSide);
      RowFacts(blkX, numBlkSide);
      cnt := FillColumnOfBlocks(table, cnt, w, numBlkSide, blkX, Rows(numBlkSide, blkX));
    }
  }

  // The vertical table.
  method FillVertical(table: array<nat>, w: nat)
    requires Side(w) && Area(w) <= table.Length
    modifies table
    ensures Holds(table, Area(w), VerticalScan(w), w)
  {
    ghost var origin := Cell(0, 0);
    if w > 2 {
      SideSquared(w / 4, w);
      RowsLength(w / 4, w / 4);
      FillColumnBlocks(table, w, w / 4);
    } else {
      var cnt := FillColumns(table, 0, w, w, w, 0, [], origin);
      RowsLength(w, w);
      assert Shift(origin, Flip(Rows(w, w))) == Flip(Rows(w, w));
    }
  }

  lemma SideSquared(side: nat, w: nat)
    requires w == 4 * side
    ensures 16 * (side * side) == w * w
  {
  }

  lemma {:induction false} RowsMonotone(w: nat, m: nat, n: nat)
    requires m <= n
    ensures |Rows(w, m)| <= |Rows(w, n)|
  {
    if m < n {
      RowsMonotone(w, m, n - 1);
    }
  }

  // The order of the horizontal table: rows of 4x4 blocks, or of cells in a small block.
  function HorizontalScan(w: nat): seq<Cell> {
    if w > 2 then Blockwise(Rows(w / 4, w / 4), Rows(4, 4)) else Rows(w, w)
  }

  // The order of the vertical table.
  function VerticalScan(w: nat): seq<Cell> {
    if w > 2 then Blockwise(Flip(Rows(w / 4, w / 4)), Flip(Rows(4, 4))) else Flip(Rows(w, w))
  }

  lemma BlockTablesAreScans(side: nat)
    ensures IsScan(Blockwise(Rows(side, side), Rows(4, 4)), 4 * side)
    ensures IsScan(Blockwise(Flip(Rows(side, side)), Flip(Rows(4, 4))), 4 * side)
  {
    hide IsScan, Rows, Flip, Blockwise;
    RowsIsScan(4);
    FlipIsScan(Rows(4, 4), 4);
    RowsIsScan(side);
    FlipIsScan(Rows(side, side), side);
    BlockwiseIsScan(Rows(side, side), Rows(4, 4), side);
    BlockwiseIsScan(Flip(Rows(side, side)), Flip(Rows(4, 4)), side);
  }

  // Both tables are permutations of the block.
  lemma TablesAreScans(w: nat)
    requires Side(w)
    ensures IsScan(HorizontalScan(w), w) && IsScan(VerticalScan(w), w)
  {
    hide IsScan, Rows, Flip, Blockwise;
    if w > 2 {
      BlockTablesAreScans(w / 4);
    } else {
      RowsIsScan(w);
      FlipIsScan(Rows(w, w), w);
    }
  }

  // Cell c stands at a place of an order.
  ghost predicate StandsAt(s: seq<Cell>, at: nat, c: Cell) {
    at < |s| && s[at] == c
  }

  // Position b of row a, in rows of n.
  function Place(a: nat, n: nat, b: nat): nat {
    a * n + b
  }

  // A place in an order of blocks with 16 cells each.
  function BlockPlace(blk: nat, i: nat): nat {
    16 * blk + i
  }

  // In a small block, the horizontal table goes row by row, and the vertical one column by column.
  lemma SmallEntry(w: nat, y: nat, x: nat)
    requires Side(w) && w <= 2 && y < w && x < w
    ensures StandsAt(HorizontalScan(w), Place(y, w, x), Cell(y, x)) && StandsAt(VerticalScan(w), Place(x, w, y), Cell(y, x))
  {
    hide Rows;
    RowsAt(w, w, y, x);
    FlippedRowsAt(w, x, y);
  }

  // In a larger block, the horizontal table goes by rows of 4x4 blocks, and row by row in each.
  lemma HorizontalEntry(w: nat, n: nat, blkY: nat, blkX: nat, y: nat, x: nat)
    requires w == 4 * n && blkY < n && blkX < n && y < 4 && x < 4
    ensures StandsAt(HorizontalScan(w), BlockPlace(Place(blkY, n, blkX), Place(y, 4, x)), Cell(4 * blkY + y, 4 * blkX + x))
  {
    hide Rows, Blockwise;
    RowsAt(n, n, blkY, blkX);
    RowsAt(4, 4, y, x);
    RowsLength(4, 4);
    BlockwiseAt(Rows(n, n), Rows(4, 4), blkY * n + blkX, 4 * y + x);
  }

  // And the vertical table by columns of 4x4 blocks, and column by column in each.
  lemma VerticalEntry(w: nat, n: nat, blkY: nat, blkX: nat, y: nat, x: nat)
    requires w == 4 * n && blkY < n && blkX < n && y < 4 && x < 4
    ensures StandsAt(VerticalScan(w), BlockPlace(Place(blkX, n, blkY), Place(x, 4, y)), Cell(4 * blkY + y, 4 * blkX + x))
  {
    hide Rows, Blockwise, Flip;
    FlippedRowsAt(n, blkX, blkY);
    FlippedRowsAt(4, x, y);
    RowsLength(4, 4);
    BlockwiseAt(Flip(Rows(n, n)), Flip(Rows(4, 4)), blkX * n + blkY, 4 * x + y);
  }

  lemma FlippedRowsAt(n: nat, a: nat, b: nat)
    requires a < n && b < n
    ensures |Flip(Rows(n, n))| == |Rows(n, n)|
    ensures a * n + b < |Rows(n, n)| && Flip(Rows(n, n))[a * n + b] == Cell(b, a)
  {
    hide Rows;
    RowsAt(n, n, a, b);
  }

  // ----- All tables

  // The diagonal table of width 2^(i+1): a plain diagonal scan up to width 4, and from there on 4x4 blocks in the
  // order of a smaller table. Blocks of width 32 are ordered by the plain diagonal scan of width 8.
  ghost function DiagonalTable(i: nat): seq<Cell> {
    if i < 2 then DiagScan(Bits.Pow2(i + 1))
    else Blockwise(if i == 4 then GroupScan() else DiagonalTable(i - 2), InnerScan())
  }

  lemma {:induction false} DiagonalTableIsScan(i: nat)
    ensures IsScan(DiagonalTable(i), Bits.Pow2(i + 1))
  {
    hide IsScan, InnerScan, GroupScan, Blockwise, DiagScan;
    if i < 2 {
      DiagScanIsScan(Bits.Pow2(i + 1));
    } else {
      var blocks := if i == 4 then GroupScan() else DiagonalTable(i - 2);
      SmallScansAreScans();
      if i == 4 {
        assert Bits.Pow2(3) == 8;
      } else {
        DiagonalTableIsScan(i - 2);
      }
      assert Bits.Pow2(i + 1) == 2 * Bits.Pow2(i) && Bits.Pow2(i) == 2 * Bits.Pow2(i - 1);
      BlockwiseIsScan(blocks, InnerScan(), Bits.Pow2(i - 1));
    }
  }

  // A diagonal table of 4x4 blocks: cell number c of block number b, in the order of the blocks.
  lemma DiagonalEntry(i: nat, blocks: seq<Cell>, inner: seq<Cell>, b: nat, c: nat)
    requires i >= 2 && blocks == (if i == 4 then GroupScan() else DiagonalTable(i - 2)) && inner == InnerScan()
    requires b < |blocks| && c < |inner|
    ensures |inner| == 16
    ensures StandsAt(DiagonalTable(i), BlockPlace(b, c), Cell(4 * blocks[b].y + inner[c].y, 4 * blocks[b].x + inner[c].x))
  {
    hide GroupScan, InnerScan, Blockwise, DiagScan;
    SmallScansAreScans();
    BlockwiseAt(blocks, inner, b, c);
  }

  // initSigLastScan: the three tables of one width. The table of width 8 also fills the table cg.
  method InitSigLastScan(bufD: array<nat>, bufH: array<nat>, bufV: array<nat>, cg: array<nat>, blockScan: array<nat>,
                         w: nat, ghost blocks: seq<Cell>)
    requires Side(w)
    requires bufD != bufH && bufD != bufV && bufH != bufV && cg != bufD && cg != bufH && cg != bufV
    requires Area(w) <= bufD.Length && Area(w) <= bufH.Length && Area(w) <= bufV.Length && cg.Length == 64
    requires w > 4 ==> IsScan(blocks, Quarter(w)) && blockScan != bufD && blockScan != cg &&
                       if w == 32 then Holds(cg, |blocks|, blocks, 8) else Holds(blockScan, |blocks|, blocks, Quarter(w))
    modifies bufD, bufH, bufV, cg
    ensures Holds(bufD, Area(w), if w <= 4 then DiagScan(w) else Blockwise(blocks, InnerScan()), w)
    ensures Holds(bufH, Area(w), HorizontalScan(w), w) && Holds(bufV, Area(w), VerticalScan(w), w)
    ensures if w == 8 then Holds(cg, 64, GroupScan(), 8) else unchanged(cg)
  {
    hide *;
    FillDiagonal(bufD, cg, blockScan, w, blocks);
    FillHorizontal(bufH, w);
    FillVertical(bufV, w);
  }

  // The diagonal table.
  method FillDiagonal(bufD: array<nat>, cg: array<nat>, blockScan: array<nat>, w: nat, ghost blocks: seq<Cell>)
    requires Side(w) && cg != bufD
    requires Area(w) <= bufD.Length && cg.Length == 64
    requires w > 4 ==> IsScan(blocks, Quarter(w)) && blockScan != bufD && blockScan != cg &&
                       if w == 32 then Holds(cg, |blocks|, blocks, 8) else Holds(blockScan, |blocks|, blocks, Quarter(w))
    modifies bufD, cg
    ensures Holds(bufD, Area(w), if w <= 4 then DiagScan(w) else Blockwise(blocks, InnerScan()), w)
    ensures if w == 8 then Holds(cg, 64, GroupScan(), 8) else unchanged(cg)
  {
    hide InnerScan, GroupScan, Holds, IsScan, DiagScan, Blockwise, Area;
    if w < 16 {
      if w == 8 {
        FillGroupScan(cg);
      } else {
        FillPlain(bufD, w);
      }
    }
    if w > 4 {
      if w == 32 {
        FillDiagonalBlocks(bufD, w, cg, blocks);
      } else {
        FillDiagonalBlocks(bufD, w, blockScan, blocks);
      }
    }
  }

  method FillGroupScan(table: array<nat>)
    requires 64 <= table.Length
    modifies table
    ensures Holds(table, 64, GroupScan(), 8)
  {
    hide *;
    ghost var w := GroupScanIs(8);
    FillPlain(table, 8);
  }

  lemma GroupScanIs(w: nat) returns (v: nat)
    requires w == 8
    ensures v == w && Area(v) == 64 && GroupScan() == DiagScan(v)
  {
    SmallScans(w);
    v := w;
  }

  // A plain diagonal scan of the whole block.
  method FillPlain(table: array<nat>, w: nat)
    requires w >= 1 && Area(w) <= table.Length
    modifies table
    ensures Holds(table, Area(w), DiagScan(w), w)
  {
    ghost var origin := Cell(0, 0);
    assert [] + Shift(origin, DiagScan(w)) == DiagScan(w);
    FillDiagonals(table, 0, w, w, 0, [], origin);
  }

  // The width whose logarithm is j + 2.
  function WidthOf(j: nat): nat {
    Bits.Pow2(j + 2)
  }

  lemma {:induction false} WidthsGrow(j: nat, k: nat)
    requires j <= k
    ensures WidthOf(0) == 4 && WidthOf(j) <= WidthOf(k) && (j < k ==> WidthOf(j) < WidthOf(k))
    ensures WidthOf(k + 1) == 2 * WidthOf(k)
  {
    Bits.PowersGrow(j + 2, k + 2);
    assert Bits.Pow2(2) == 4;
  }

  // The three tables of width 2^(i+1).
  ghost predicate Filled(d: array<nat>, h: array<nat>, v: array<nat>, i: nat)
    reads d, h, v
  {
    var w := Bits.Pow2(i + 1);
    Holds(d, Area(w), DiagonalTable(i), w) && Holds(h, Area(w), HorizontalScan(w), w) && Holds(v, Area(w), VerticalScan(w), w)
  }

  class Rom {
    const depth: nat  // MAX_CU_DEPTH
    const convertToBit: array<int>
    const cg: array<nat>  // g_sigLastScanCG32x32
    var diagonal: seq<array<nat>>
    var horizontal: seq<array<nat>>
    var vertical: seq<array<nat>>

    constructor (depth: nat)
      requires depth >= 1
      ensures this.depth == depth && convertToBit.Length == Bits.Pow2(depth) + 1 && cg.Length == 64
      ensures diagonal == [] && horizontal == [] && vertical == []
      ensures fresh(cg) && fresh(convertToBit)
    {
      this.depth := depth;
      convertToBit := new int[Bits.Pow2(depth) + 1];
      cg := new nat[64];
      diagonal, horizontal, vertical := [], [], [];
    }

    // The logarithm of a width, minus 2; widths below 4 have -1.
    ghost predicate Converts()
      reads convertToBit
    {
      convertToBit.Length == Bits.Pow2(depth) + 1 &&
      (2 < convertToBit.Length ==> convertToBit[2] == -1) &&
      forall j: nat :: WidthOf(j) < convertToBit.Length ==> convertToBit[WidthOf(j)] == j
    }

    // The first tables of each kind are filled; none of them is cg.
    ghost predicate Listed(count: nat)
      reads this, diagonal, horizontal, vertical
    {
      |diagonal| == |horizontal| == |vertical| == count && cg.Length == 64 &&
      (forall i :: 0 <= i < count ==> diagonal[i] != cg && horizontal[i] != cg && vertical[i] != cg) &&
      (forall i :: 0 <= i < count ==> Filled(diagonal[i], horizontal[i], vertical[i], i))
    }

    ghost predicate TablesFilled(count: nat)
      reads this, cg, diagonal, horizontal, vertical
    {
      Listed(count) && (count > 2 ==> Holds(cg, 64, GroupScan(), 8))
    }

    // The first loop of initROM.
    method FillConvertToBit()
      requires convertToBit.Length == Bits.Pow2(depth) + 1
      modifies convertToBit
      ensures Converts()
    {
      var max := Bits.Pow2(depth);
      hide WidthOf, Bits.Pow2;
      for k := 0 to convertToBit.Length
        invariant forall j :: 0 <= j < k ==> convertToBit[j] == -1
      {
        convertToBit[k] := -1;
      }
      var c := 0;
      var i := 4;
      WidthsGrow(0, 0);
      while i <= max
        invariant i == WidthOf(c)
        invariant 2 < convertToBit.Length ==> convertToBit[2] == -1
        invariant forall j: nat :: j < c ==> WidthOf(j) < convertToBit.Length && convertToBit[WidthOf(j)] == j
        decreases max - i
      {
        forall j: nat | j < c
          ensures WidthOf(j) < WidthOf(c)
        {
          WidthsGrow(j, c);
        }
        WidthsGrow(0, c);
        convertToBit[i] := c;
        c := c + 1;
        i := i * 2;
      }
      forall j: nat | WidthOf(j) < convertToBit.Length
        ensures convertToBit[WidthOf(j)] == j
      {
        WidthsGrow(c, if c <= j then j else c);
      }
    }

    // The list of the blocks of table i.
    ghost function BlocksOf(i: nat): seq<Cell> {
      if i < 2 then [] else if i == 4 then GroupScan() else DiagonalTable(i - 2)
    }

    lemma Widths(i: nat, w: nat)
      requires w == Bits.Pow2(i + 1)
      ensures w <= 2 <==> i == 0
      ensures w <= 4 <==> i <= 1
      ensures w == 8 <==> i == 2
      ensures w == 32 <==> i == 4
      ensures i >= 1 ==> w == 4 * Bits.Pow2(i - 1) && w / 4 == Quarter(w) == Bits.Pow2(i - 1)
      ensures Side(w)
    {
      assert Bits.Pow2(1) == 2 && Bits.Pow2(2) == 4 && Bits.Pow2(3) == 8 && Bits.Pow2(4) == 16 && Bits.Pow2(5) == 32;
      if i > 4 {
        Bits.PowersGrow(5, i + 1);
      }
    }

    lemma BlocksAreScan(i: nat)
      requires i >= 2
      ensures IsScan(BlocksOf(i), Bits.Pow2(i - 1)) && |BlocksOf(i)| == Area(Bits.Pow2(i - 1))
      ensures DiagonalTable(i) == Blockwise(BlocksOf(i), InnerScan())
    {
      hide IsScan, InnerScan, GroupScan, Blockwise, DiagScan;
      DiagonalTableIsScan(i - 2);
      if i == 4 {
        assert Bits.Pow2(3) == 8;
        SmallScansAreScans();
      }
      ScanLength(BlocksOf(i), Bits.Pow2(i - 1));
    }

    lemma ScanLength(s: seq<Cell>, w: nat)
      requires IsScan(s, w)
      ensures |s| == Area(w)
    {
    }

    // The width of the blocks of table i, looked up.
    lemma LookUp(i: nat)
      requires 2 <= i < depth && Converts()
      ensures Bits.Pow2(i - 1) < convertToBit.Length && convertToBit[Bits.Pow2(i - 1)] + 1 == i - 2
    {
      Bits.PowersGrow(i - 1, depth);
      if i == 2 {
        assert Bits.Pow2(1) == 2;
      } else {
        var j: nat := i - 3;
        assert WidthOf(j) == Bits.Pow2(i - 1);
      }
    }

    lemma ListedAt(count: nat, j: nat)
      requires Listed(count) && j < count
      ensures j < |diagonal| == |horizontal| == |vertical| && diagonal[j] != cg
      ensures Holds(diagonal[j], Area(Bits.Pow2(j + 1)), DiagonalTable(j), Bits.Pow2(j + 1))
    {
      hide Holds, Area, DiagonalTable, Bits.Pow2, HorizontalScan, VerticalScan;
      assert Filled(diagonal[j], horizontal[j], vertical[j], j);
    }

    // The table of the blocks of table i, looked up by its width.
    method BlockTable(i: nat, w: nat) returns (table: array<nat>)
      requires 2 <= i < depth && w == Bits.Pow2(i + 1) && Converts() && Listed(i)
      ensures table in diagonal && table != cg && Holds(table, |BlocksOf(i)|, DiagonalTable(i - 2), Quarter(w))
    {
      hide *;
      Widths(i, w);
      LookUp(i);
      BlocksAreScan(i);
      ListedAt(i, i - 2);
      var log2Blk := convertToBit[w / 4] + 1;
      table := diagonal[log2Blk];
    }

    // The tables of one width, into new buffers.
    method FillNew(i: nat, w: nat, d: array<nat>, h: array<nat>, v: array<nat>, blockScan: array<nat>)
      requires w == Bits.Pow2(i + 1) && Area(w) <= d.Length && Area(w) <= h.Length && Area(w) <= v.Length && cg.Length == 64
      requires d != h && d != v && h != v && cg != d && cg != h && cg != v
      requires i >= 2 ==> blockScan != d && blockScan != cg &&
                          Holds(blockScan, |BlocksOf(i)|, DiagonalTable(i - 2), Quarter(w))
      requires i > 2 ==> Holds(cg, 64, GroupScan(), 8)
      modifies d, h, v, cg
      ensures Filled(d, h, v, i) && (i >= 2 ==> Holds(cg, 64, GroupScan(), 8))
    {
      hide *;
      Widths(i, w);
      OrderOf(i, w);
      InitSigLastScan(d, h, v, cg, blockScan, w, BlocksOf(i));
      MakeFilled(d, h, v, i, w);
    }

    lemma MakeFilled(d: array<nat>, h: array<nat>, v: array<nat>, i: nat, w: nat)
      requires w == Bits.Pow2(i + 1) && Holds(d, Area(w), DiagonalTable(i), w)
      requires Holds(h, Area(w), HorizontalScan(w), w) && Holds(v, Area(w), VerticalScan(w), w)
      ensures Filled(d, h, v, i)
    {
      hide Holds, Area, DiagonalTable, Bits.Pow2, HorizontalScan, VerticalScan;
    }

    // The order of table i.
    lemma OrderOf(i: nat, w: nat)
      requires w == Bits.Pow2(i + 1)
      ensures DiagonalTable(i) == if w <= 4 then DiagScan(w) else Blockwise(BlocksOf(i), InnerScan())
      ensures i >= 2 ==> IsScan(BlocksOf(i), Quarter(w)) && |BlocksOf(i)| == Area(Quarter(w))
      ensures i >= 2 && i != 4 ==> BlocksOf(i) == DiagonalTable(i - 2)
      ensures i == 4 ==> BlocksOf(i) == GroupScan() && Area(Quarter(w)) == 64
    {
      hide IsScan, DiagScan, Blockwise, InnerScan, GroupScan, Bits.Pow2;
      Widths(i, w);
      if i >= 2 {
        BlocksAreScan(i);
      }
    }

    // The tables of one width.
    method AddTables(i: nat, w: nat)
      requires i < depth && w == Bits.Pow2(i + 1) && Converts() && TablesFilled(i)
      modifies this`diagonal, this`horizontal, this`vertical, cg
      ensures TablesFilled(i + 1) && Converts()
    {
      Parts(i);
      hide *;
      Widths(i, w);
      var d := NewBuffer(w);
      var h := NewBuffer(w);
      var v := NewBuffer(w);
      var blockScan := d;
      if w > 4 {
        blockScan := BlockTable(i, w);
      }
      FillNew(i, w, d, h, v, blockScan);
      Append(i, d, h, v);
      Parts(i + 1);
    }

    lemma Parts(count: nat)
      ensures TablesFilled(count) <==> Listed(count) && (count > 2 ==> Holds(cg, 64, GroupScan(), 8))
      ensures Listed(count) ==> cg.Length == 64 && cg !in diagonal && cg !in horizontal && cg !in vertical
    {
      hide Holds, GroupScan, Filled;
    }

    method NewBuffer(w: nat) returns (buffer: array<nat>)
      ensures fresh(buffer) && buffer.Length == Area(w)
    {
      buffer := new nat[w * w];
    }

    method Append(i: nat, d: array<nat>, h: array<nat>, v: array<nat>)
      requires Listed(i) && Filled(d, h, v, i) && d != cg && h != cg && v != cg
      modifies this`diagonal, this`horizontal, this`vertical
      ensures Listed(i + 1)
    {
      hide Filled;
      diagonal, horizontal, vertical := diagonal + [d], horizontal + [h], vertical + [v];
    }

    // The second loop of initROM.
    method InitTables()
      requires Converts() && TablesFilled(0) && cg.Length == 64
      modifies this, cg
      ensures TablesFilled(depth)
    {
      var c := 2;
      for i := 0 to depth
        invariant c == Bits.Pow2(i + 1) && TablesFilled(i) && Converts()
      {
        AddTables(i, c);
        c := c * 2;
      }
    }
  }
}
