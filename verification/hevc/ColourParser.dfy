// The parser of the coded colour table: it fills every cell once, bottom up, with the coded residuals.
module ColourParser {
  import opened Bits
  import opened ExpGolomb
  import opened BitReader
  import opened ColourOctree
  import opened ColourTable

  // A stretch of `side` rows of one column, for one vertex.
  ghost predicate InStretch(c: Cell, u: nat, v: nat, i: nat, row: nat, end: nat) {
    c.u == u && c.v == v && c.i == i && row <= c.y < end
  }

  // x at one row, nothing in the others.
  ghost function AtRow(c: Cell, row: nat, x: Vertex): Vertex {
    if c.y == row then x else Skipped
  }

  ghost function VertexAt(xs: seq<Vertex>, i: nat): Vertex {
    if i < |xs| then xs[i] else Skipped
  }

  // The rows of one column, for all four vertices.
  ghost predicate InColumn(c: Cell, u: nat, v: nat, row: nat, end: nat) {
    c.u == u && c.v == v && row <= c.y < end && c.i < 4
  }

  // The cells of a block outside the coded column, in the order in which they are filled.
  ghost predicate Uncoded(c: Cell, b: Block, u: nat, v: nat) {
    InBlock(c, b) && (c.u != b.u || c.v != b.v) && (c.u < u || (c.u == u && c.v < v))
  }

  // The first row of the l-th luma part of a block.
  function RowStart(b: Block, l: nat): nat {
    if l == 0 then b.y else RowStart(b, l - 1) + b.side
  }

  lemma {:induction false} RowStartIs(b: Block, l: nat)
    ensures RowStart(b, l) == b.y + l * b.side
  {
    if l > 0 {
      RowStartIs(b, l - 1);
    }
  }

  lemma {:induction false} RowStartGrows(b: Block, l: nat, m: nat)
    requires l <= m
    ensures RowStart(b, l) <= RowStart(b, m)
  {
    if l < m {
      RowStartGrows(b, l, m - 1);
    }
  }

  // One luma part of a leaf codes the first row of the part.
  lemma LeafRow(rows: seq<seq<Vertex>>, b: Block, l: nat, c: Cell)
    requires l < |rows| && |rows[l]| == 4
    requires InColumn(c, b.u, b.v, RowStart(b, l), RowStart(b, l) + b.side)
    ensures Residual(Leaf(rows), b, c) == AtRow(c, RowStart(b, l), VertexAt(rows[l], c.i))
  {
    RowStartIs(b, l);
    DivideUnique(c.y - b.y, b.side, l, c.y - b.y - l * b.side);
  }

  class Parser {
    const reader: Reader
    const table: Table

    constructor (reader: Reader, table: Table)
      ensures this.reader == reader && this.table == table
    {
      this.reader, this.table := reader, table;
    }

    // ----- Writing

    // The rows row+1 .. end of a stretch: residuals that are not coded.
    method FillStretch(u: nat, v: nat, i: nat, row: nat, end: nat) returns (ok: bool)
      requires table.Valid() && row <= end
      requires forall c :: InStretch(c, u, v, i, row, end) ==> table.Inside(c) && c !in table.residual
      requires row > 0 ==> Cell(row - 1, u, v, i) in table.residual
      requires forall c {:trigger InStretch(c, u, v, i, row, end)} :: InStretch(c, u, v, i, row, end) ==> table.plan(c) == Skipped
      modifies table, table.cells
      ensures ok ==> table.Valid()
      ensures ok ==> forall c :: c in table.residual <==> c in old(table.residual) || InStretch(c, u, v, i, row, end)
      ensures !ok ==> table.Overflows()
    {
      hide Correct, Table.Stored, Table.Valid, Table.Overflows, Table.Planned, Table.Follows, TwelveBits;
      ok := true;
      var y := row;
      while y < end && ok
        invariant row <= y <= end
        invariant ok ==> table.Valid()
        invariant ok ==> forall c :: c in table.residual <==> c in old(table.residual) || InStretch(c, u, v, i, row, y)
        invariant !ok ==> table.Overflows()
        decreases end - y
      {
        var c := Cell(y, u, v, i);
        assert InStretch(c, u, v, i, row, end);
        assert y > row ==> InStretch(Below(c), u, v, i, row, y);
        ok := table.SetResidual(c, Skipped);
        y := y + 1;
      }
    }

    // One coded vertex: its own residual at `row`, none in the rest of the stretch.
    method WriteStretch(u: nat, v: nat, i: nat, row: nat, end: nat, x: Vertex) returns (ok: bool)
      requires table.Valid() && row < end
      requires forall c :: InStretch(c, u, v, i, row, end) ==> table.Inside(c) && c !in table.residual
      requires row > 0 ==> Cell(row - 1, u, v, i) in table.residual
      requires forall c {:trigger InStretch(c, u, v, i, row, end)} :: InStretch(c, u, v, i, row, end) ==> table.plan(c) == AtRow(c, row, x)
      modifies table, table.cells
      ensures ok ==> table.Valid()
      ensures ok ==> forall c :: c in table.residual <==> c in old(table.residual) || InStretch(c, u, v, i, row, end)
      ensures !ok ==> table.Overflows()
    {
      hide Correct, Table.Stored, Table.Valid, Table.Overflows, Table.Planned, Table.Follows, TwelveBits;
      assert InStretch(Cell(row, u, v, i), u, v, i, row, end);
      ok := table.SetResidual(Cell(row, u, v, i), x);
      if ok {
        RestOfStretch(u, v, i, row, end, x);
        ok := FillStretch(u, v, i, row + 1, end);
        assert ok ==> forall c :: InStretch(c, u, v, i, row, end) <==>
          InStretch(c, u, v, i, row + 1, end) || c == Cell(row, u, v, i);
      }
    }

    lemma RestOfStretch(u: nat, v: nat, i: nat, row: nat, end: nat, x: Vertex)
      requires forall c :: InStretch(c, u, v, i, row, end) && c != Cell(row, u, v, i) ==>
                 table.Inside(c) && c !in table.residual
      requires forall c {:trigger InStretch(c, u, v, i, row, end)} :: InStretch(c, u, v, i, row, end) ==> table.plan(c) == AtRow(c, row, x)
      ensures forall c :: InStretch(c, u, v, i, row + 1, end) ==> table.Inside(c) && c !in table.residual
      ensures forall c {:trigger table.plan(c)} :: InStretch(c, u, v, i, row + 1, end) ==> table.plan(c) == Skipped
    {
      forall c | InStretch(c, u, v, i, row + 1, end)
        ensures table.Inside(c) && c !in table.residual && table.plan(c) == Skipped
      {
        assert InStretch(c, u, v, i, row, end);
      }
    }

    // ----- Reading

    method ReadParam(r: nat, ghost d: int, ghost rest: Bits) returns (param: int)
      requires reader.Valid() && 1 <= r <= 31 && Magnitude(d) < 0x7fff_ffff
      requires reader.Rest() == EncodeParam(d, r) + rest
      modifies reader
      ensures reader.Valid() && reader.Rest() == rest && param == d
    {
      hide Reader.Valid, Reader.Rest, Shr, Shl, LeadingZeros, Value, EncodeParam;
      ghost var a := Magnitude(d);
      ghost var tail := (if a == 0 then [] else [d < 0]) + rest;
      ParamSplits(d, r, rest, tail);
      var prefix := reader.ReadUvlc();
      var codeWord := reader.Read(r);
      var symbol := Shl(prefix, r) + codeWord;
      if symbol != 0 {
        var sign := reader.ReadFlag();
        param := if sign == 1 then -symbol else symbol;
      } else {
        param := 0;
      }
    }

    // The three fields of a coded residual, one behind the other.
    lemma ParamSplits(d: int, r: nat, rest: Bits, tail: Bits)
      requires Magnitude(d) < 0x7fff_ffff && 1 <= r
      requires tail == (if Magnitude(d) == 0 then [] else [d < 0]) + rest
      ensures var a, b := Magnitude(d), EncodeParam(d, r) + rest;
        && UeReady(b, 30) && UeValue(b) == Shr(a, r)
        && |b[UeLength(b)..]| >= r && b[UeLength(b)..][r..] == tail
        && Shl(UeValue(b), r) + Value(b[UeLength(b)..][..r]) == a
        && (a != 0 ==> tail != [] && tail[0] == (d < 0) && tail[1..] == rest)
        && (a == 0 ==> tail == rest)
    {
      hide Shr, Shl, ToBits, EncodeUe, LeadingZeros, Value, Log2;
      var a := Magnitude(d);
      var low := ToBits(a, r);
      assert EncodeParam(d, r) + rest == EncodeUe(Shr(a, r)) + (low + tail);
      UeRoundTrip(Shr(a, r), low + tail);
      UeShort(Shr(a, r));
      assert (low + tail)[..r] == low && (low + tail)[r..] == tail;
      HighAndLow(a, r);
    }

    // The deltas of one vertex: coded, or zero.
    method ReadVertex(r: nat, ghost x: Vertex, ghost rest: Bits) returns (v: Vertex)
      requires reader.Valid() && 1 <= r <= 31 && GoodVertex(x, table.resQuantBit)
      requires reader.Rest() == EncodeVertex(x, r) + rest
      modifies reader
      ensures reader.Valid() && reader.Rest() == rest && v == x
    {
      hide Reader.Valid, Reader.Rest, EncodeParam, EncodeVertex, GoodVertex, Magnitude;
      ghost var b2, b3 := [], [];
      if x.Coded? {
        b2, b3 := EncodeParam(x.du, r) + (EncodeParam(x.dv, r) + rest), EncodeParam(x.dv, r) + rest;
      }
      VertexBits(x, r, rest);
      var code := reader.ReadFlag();
      if code != 0 {
        FitsVertex(x, table.resQuantBit);
        var dy := ReadParam(r, x.dy, b2);
        var du := ReadParam(r, x.du, b3);
        var dv := ReadParam(r, x.dv, rest);
        v := Coded(dy, du, dv);
      } else {
        v := Skipped;
      }
    }

    // The bits behind the flag of a vertex.
    ghost function Behind(x: Vertex, r: nat, rest: Bits): Bits {
      match x
      case Skipped => rest
      case Coded(dy, du, dv) => EncodeParam(dy, r) + (EncodeParam(du, r) + (EncodeParam(dv, r) + rest))
    }

    lemma VertexBits(x: Vertex, r: nat, rest: Bits)
      ensures var b := EncodeVertex(x, r) + rest;
        b != [] && b[0] == x.Coded? && b[1..] == Behind(x, r, rest)
    {
      hide EncodeParam;
      assert EncodeVertex(x, r) + rest == [x.Coded?] + Behind(x, r, rest);
      hide Behind, EncodeVertex;
    }

    lemma FitsVertex(x: Vertex, q: nat)
      requires x.Coded? && GoodVertex(x, q)
      ensures Magnitude(x.dy) < 0x7fff_ffff && Magnitude(x.du) < 0x7fff_ffff && Magnitude(x.dv) < 0x7fff_ffff
    {
      ShlGrows(x.dy, q);
      ShlGrows(x.du, q);
      ShlGrows(x.dv, q);
    }

    // ----- Leaves

    // The four vertices of one luma part of a leaf.
    method ParseRow(u: nat, v: nat, row: nat, end: nat, r: nat, ghost xs: seq<Vertex>, ghost rest: Bits)
      returns (ok: bool)
      requires table.Valid() && row < end
      requires forall c :: InColumn(c, u, v, row, end) ==> table.Inside(c) && c !in table.residual
      requires row > 0 ==> forall c :: InColumn(c, u, v, row - 1, row) ==> c in table.residual
      requires reader.Valid() && 1 <= r <= 31 && GoodRow(xs, table.resQuantBit)
      requires reader.Rest() == EncodeRow(xs, 0, r) + rest
      requires forall c {:trigger InColumn(c, u, v, row, end)} :: InColumn(c, u, v, row, end) ==> table.plan(c) == AtRow(c, row, VertexAt(xs, c.i))
      modifies reader, table, table.cells
      ensures ok ==> table.Valid() && reader.Valid() && reader.Rest() == rest
      ensures ok ==> forall c :: c in table.residual <==> c in old(table.residual) || InColumn(c, u, v, row, end)
      ensures !ok ==> table.Overflows()
    {
      hide Reader.Valid, Reader.Rest, Correct, Table.Stored, Table.Valid, Table.Overflows, Table.Planned, Table.Follows, TwelveBits, EncodeVertex, GoodVertex;
      ok := true;
      var i := 0;
      while i < 4 && ok
        invariant 0 <= i <= 4
        invariant ok ==> table.Valid() && reader.Valid() && reader.Rest() == EncodeRow(xs, i, r) + rest
        invariant ok ==> forall c :: c in table.residual <==>
          c in old(table.residual) || (InColumn(c, u, v, row, end) && c.i < i)
        invariant !ok ==> table.Overflows()
        decreases 4 - i
      {
        assert reader.Rest() == EncodeVertex(xs[i], r) + (EncodeRow(xs, i + 1, r) + rest);
        var x := ReadVertex(r, xs[i], EncodeRow(xs, i + 1, r) + rest);
        assert forall c :: InStretch(c, u, v, i, row, end) ==> InColumn(c, u, v, row, end);
        assert row > 0 ==> InColumn(Cell(row - 1, u, v, i), u, v, row - 1, row);
        ok := WriteStretch(u, v, i, row, end, x);
        assert forall c :: InColumn(c, u, v, row, end) && c.i == i ==> InStretch(c, u, v, i, row, end);
        i := i + 1;
      }
    }

    // A column that the leaf does not code.
    method FillColumn(u: nat, v: nat, row: nat, end: nat) returns (ok: bool)
      requires table.Valid() && row <= end
      requires forall c :: InColumn(c, u, v, row, end) ==> table.Inside(c) && c !in table.residual
      requires row > 0 ==> forall c :: InColumn(c, u, v, row - 1, row) ==> c in table.residual
      requires forall c {:trigger InColumn(c, u, v, row, end)} :: InColumn(c, u, v, row, end) ==> table.plan(c) == Skipped
      modifies table, table.cells
      ensures ok ==> table.Valid()
      ensures ok ==> forall c :: c in table.residual <==> c in old(table.residual) || InColumn(c, u, v, row, end)
      ensures !ok ==> table.Overflows()
    {
      hide Correct, Table.Stored, Table.Valid, Table.Overflows, Table.Planned, Table.Follows, TwelveBits;
      ok := true;
      var y, i := row, 0;
      while y < end && ok
        invariant row <= y <= end && 0 <= i < 4 && (y == end ==> i == 0)
        invariant ok ==> table.Valid()
        invariant ok ==> forall c :: c in table.residual <==>
          c in old(table.residual) || (InColumn(c, u, v, row, end) && (c.y < y || (c.y == y && c.i < i)))
        invariant !ok ==> table.Overflows()
        decreases end - y, 4 - i
      {
        var c := Cell(y, u, v, i);
        assert InColumn(c, u, v, row, end);
        assert y > row ==> InColumn(Below(c), u, v, row, end);
        assert y == row && y > 0 ==> InColumn(Below(c), u, v, row - 1, row);
        ok := table.SetResidual(c, Skipped);
        if i < 3 {
          i := i + 1;
        } else {
          y, i := y + 1, 0;
        }
      }
    }

    // The coded column of a leaf.
    method ParseRows(b: Block, parts: nat, r: nat, ghost rows: seq<seq<Vertex>>, ghost rest: Bits) returns (ok: bool)
      requires table.Valid() && 0 < b.side && RowStart(b, parts) == b.y + b.height && parts == |rows|
      requires forall l :: 0 <= l < |rows| ==> GoodRow(rows[l], table.resQuantBit)
      requires forall c :: InColumn(c, b.u, b.v, b.y, b.y + b.height) ==> table.Inside(c) && c !in table.residual
      requires b.y > 0 ==> forall c :: InColumn(c, b.u, b.v, b.y - 1, b.y) ==> c in table.residual
      requires reader.Valid() && 1 <= r <= 31 && reader.Rest() == EncodeRows(rows, 0, r) + rest
      requires forall c {:trigger InColumn(c, b.u, b.v, b.y, b.y + b.height)} :: InColumn(c, b.u, b.v, b.y, b.y + b.height) ==> table.plan(c) == Residual(Leaf(rows), b, c)
      modifies reader, table, table.cells
      ensures ok ==> table.Valid() && reader.Valid() && reader.Rest() == rest
      ensures ok ==> forall c :: c in table.residual <==>
        c in old(table.residual) || InColumn(c, b.u, b.v, b.y, b.y + b.height)
      ensures !ok ==> table.Overflows()
    {
      hide Reader.Valid, Reader.Rest, Correct, Table.Stored, Table.Valid, Table.Overflows, Table.Planned, Table.Follows, TwelveBits, EncodeRow, GoodRow, Residual;
      ok := true;
      var l, row := 0, b.y;
      while l < parts && ok
        invariant 0 <= l <= parts && b.y <= row == RowStart(b, l)
        invariant ok ==> table.Valid() && reader.Valid() && reader.Rest() == EncodeRows(rows, l, r) + rest
        invariant ok ==> forall c :: c in table.residual <==>
          c in old(table.residual) || InColumn(c, b.u, b.v, b.y, row)
        invariant !ok ==> table.Overflows()
        decreases parts - l
      {
        RowStartGrows(b, l + 1, parts);
        forall c | InColumn(c, b.u, b.v, row, row + b.side)
          ensures table.Inside(c) && c !in table.residual && table.plan(c) == Residual(Leaf(rows), b, c)
        {
          assert InColumn(c, b.u, b.v, b.y, b.y + b.height);
        }
        forall c | row > b.y && InColumn(c, b.u, b.v, row - 1, row) ensures c in table.residual {
          assert InColumn(c, b.u, b.v, b.y, row);
        }
        ok := ParsePart(b, l, row, r, rows, rest);
        l, row := l + 1, row + b.side;
      }
    }

    // The l-th luma part of the coded column.
    method ParsePart(b: Block, ghost l: nat, row: nat, r: nat, ghost rows: seq<seq<Vertex>>, ghost rest: Bits)
      returns (ok: bool)
      requires table.Valid() && 0 < b.side && l < |rows| && row == RowStart(b, l)
      requires GoodRow(rows[l], table.resQuantBit)
      requires forall c :: InColumn(c, b.u, b.v, row, row + b.side) ==> table.Inside(c) && c !in table.residual
      requires row > 0 ==> forall c :: InColumn(c, b.u, b.v, row - 1, row) ==> c in table.residual
      requires reader.Valid() && 1 <= r <= 31 && reader.Rest() == EncodeRows(rows, l, r) + rest
      requires forall c {:trigger InColumn(c, b.u, b.v, row, row + b.side)} :: InColumn(c, b.u, b.v, row, row + b.side) ==> table.plan(c) == Residual(Leaf(rows), b, c)
      modifies reader, table, table.cells
      ensures ok ==> table.Valid() && reader.Valid() && reader.Rest() == EncodeRows(rows, l + 1, r) + rest
      ensures ok ==> forall c :: c in table.residual <==>
        c in old(table.residual) || InColumn(c, b.u, b.v, row, row + b.side)
      ensures !ok ==> table.Overflows()
    {
      hide Reader.Valid, Reader.Rest, Correct, Table.Stored, Table.Valid, Table.Overflows, Table.Planned, Table.Follows, TwelveBits, EncodeRow, Residual;
      forall c | InColumn(c, b.u, b.v, row, row + b.side)
        ensures Residual(Leaf(rows), b, c) == AtRow(c, row, VertexAt(rows[l], c.i))
      {
        LeafRow(rows, b, l, c);
      }
      assert reader.Rest() == EncodeRow(rows[l], 0, r) + (EncodeRows(rows, l + 1, r) + rest);
      ok := ParseRow(b.u, b.v, row, row + b.side, r, rows[l], EncodeRows(rows, l + 1, r) + rest);
    }

    // The columns of a leaf that are not coded.
    method FillRest(b: Block) returns (ok: bool)
      requires table.Valid() && 0 < b.side && 0 < b.height
      requires forall c :: InBlock(c, b) ==> table.Inside(c)
      requires forall c :: Uncoded(c, b, b.u + b.side, b.v) ==> c !in table.residual
      requires b.y > 0 ==> forall c :: InBlock(c, b) && c.y == b.y ==> Below(c) in table.residual
      requires forall c {:trigger Uncoded(c, b, b.u + b.side, b.v)} :: Uncoded(c, b, b.u + b.side, b.v) ==> table.plan(c) == Skipped
      modifies table, table.cells
      ensures ok ==> table.Valid()
      ensures ok ==> forall c :: c in table.residual <==>
        c in old(table.residual) || Uncoded(c, b, b.u + b.side, b.v)
      ensures !ok ==> table.Overflows()
    {
      hide Correct, Table.Stored, Table.Valid, Table.Overflows, Table.Planned, Table.Follows, TwelveBits;
      ok := true;
      var u, v := b.u, b.v;
      while u < b.u + b.side && ok
        invariant b.u <= u <= b.u + b.side && b.v <= v < b.v + b.side && (u == b.u + b.side ==> v == b.v)
        invariant ok ==> table.Valid()
        invariant ok ==> forall c :: c in table.residual <==> c in old(table.residual) || Uncoded(c, b, u, v)
        invariant !ok ==> table.Overflows()
        decreases b.u + b.side - u, b.v + b.side - v
      {
        if u != b.u || v != b.v {
          forall c | InColumn(c, u, v, b.y, b.y + b.height)
            ensures InBlock(c, b) && Uncoded(c, b, b.u + b.side, b.v) && !Uncoded(c, b, u, v)
          {
            assert InBlock(c, b);
          }
          forall c | b.y > 0 && InColumn(c, u, v, b.y - 1, b.y) ensures c in table.residual {
            var a := Cell(b.y, u, v, c.i);
            assert InBlock(a, b) && Below(a) == c;
          }
          ok := FillColumn(u, v, b.y, b.y + b.height);
          assert forall c :: Uncoded(c, b, u, v + 1) <==>
            Uncoded(c, b, u, v) || InColumn(c, u, v, b.y, b.y + b.height);
        }
        if v + 1 < b.v + b.side {
          v := v + 1;
        } else {
          u, v := u + 1, b.v;
        }
      }
    }

    // A leaf of the octree.
    method ParseLeaf(b: Block, ghost depth: nat, parts: nat, r: nat, ghost rows: seq<seq<Vertex>>, ghost rest: Bits)
      returns (ok: bool)
      requires table.Valid() && IsBlock(b, depth, parts) && 0 < parts
      requires Shape(Leaf(rows), depth, parts, table.resQuantBit)
      requires forall c :: InBlock(c, b) ==> table.Inside(c) && c !in table.residual
      requires b.y > 0 ==> forall c :: InBlock(c, b) && c.y == b.y ==> Below(c) in table.residual
      requires reader.Valid() && 1 <= r <= 31 && reader.Rest() == EncodeRows(rows, 0, r) + rest
      requires forall c {:trigger InBlock(c, b)} :: InBlock(c, b) ==> table.plan(c) == Residual(Leaf(rows), b, c)
      modifies reader, table, table.cells
      ensures ok ==> table.Valid() && reader.Valid() && reader.Rest() == rest
      ensures ok ==> forall c :: c in table.residual <==> c in old(table.residual) || InBlock(c, b)
      ensures !ok ==> table.Overflows()
    {
      hide Reader.Valid, Reader.Rest, Correct, Table.Stored, Table.Valid, Table.Overflows, Table.Planned, Table.Follows, TwelveBits, EncodeRows, GoodRow, IsBlock, RowStart, Residual;
      LeafGeometry(b, depth, parts);
      UncodedResidual(rows, b);
      ColumnOfBlock(b, table.residual);
      forall c | InColumn(c, b.u, b.v, b.y, b.y + b.height)
        ensures table.plan(c) == Residual(Leaf(rows), b, c)
      {
        assert InBlock(c, b);
      }
      ok := ParseRows(b, parts, r, rows, rest);
      if ok {
        ghost var res := table.residual;
        forall c | Uncoded(c, b, b.u + b.side, b.v) ensures c !in res {
          assert InBlock(c, b);
        }
        ok := FillRest(b);
        assert forall c :: InBlock(c, b) <==>
          InColumn(c, b.u, b.v, b.y, b.y + b.height) || Uncoded(c, b, b.u + b.side, b.v);
      }
    }

    lemma LeafGeometry(b: Block, depth: nat, parts: nat)
      requires IsBlock(b, depth, parts) && 0 < parts
      ensures 0 < b.side && 0 < b.height && RowStart(b, parts) == b.y + b.height
    {
      RowStartIs(b, parts);
      ProductFacts(Pow2(depth), parts);
    }

    lemma ProductFacts(a: nat, b: nat)
      requires a >= 1 && b >= 1
      ensures a * b == b * a && a * b >= a
    {
      assert a * b == a + a * (b - 1);
    }

    lemma UncodedResidual(rows: seq<seq<Vertex>>, b: Block)
      ensures forall c :: Uncoded(c, b, b.u + b.side, b.v) ==> Residual(Leaf(rows), b, c) == Skipped
      ensures forall c :: InBlock(c, b) <==>
        InBlock(c, b) && (InColumn(c, b.u, b.v, b.y, b.y + b.height) || Uncoded(c, b, b.u + b.side, b.v))
    {
    }

    // The coded column is part of the block, and so is what lies below it.
    lemma ColumnOfBlock(b: Block, res: map<Cell, Vertex>)
      requires 0 < b.side && 0 < b.height
      requires b.y > 0 ==> forall c :: InBlock(c, b) && c.y == b.y ==> Below(c) in res
      ensures forall c :: InColumn(c, b.u, b.v, b.y, b.y + b.height) ==> InBlock(c, b)
      ensures b.y > 0 ==> forall c :: InColumn(c, b.u, b.v, b.y - 1, b.y) ==> c in res
    {
      forall c | b.y > 0 && InColumn(c, b.u, b.v, b.y - 1, b.y) ensures c in res {
        var a := Cell(b.y, c.u, c.v, c.i);
        assert InBlock(a, b) && Below(a) == c;
      }
    }

    // ----- Octants

    // xParse3DAsymLUTOctant at depth nDepth, for a stream that starts with the octree o.
    method ParseOctant(nDepth: nat, b: Block, ghost o: Octant, ghost rest: Bits) returns (ok: bool)
      requires nDepth <= table.octantDepth && 1 <= table.flcBits <= 31
      requires IsBlock(b, table.octantDepth - nDepth, Pow2(table.partNumLog2))
      requires Shape(o, table.octantDepth - nDepth, Pow2(table.partNumLog2), table.resQuantBit)
      requires table.Valid()
      requires forall c :: InBlock(c, b) ==> table.Inside(c) && c !in table.residual
      requires b.y > 0 ==> forall c :: InBlock(c, b) && c.y == b.y ==> Below(c) in table.residual
      requires reader.Valid()
      requires reader.Rest() == EncodeOctant(o, table.octantDepth - nDepth, table.flcBits) + rest
      requires forall c {:trigger InBlock(c, b)} :: InBlock(c, b) ==> table.plan(c) == Residual(o, b, c)
      modifies reader, table, table.cells
      ensures ok ==> table.Valid() && reader.Valid() && reader.Rest() == rest
      ensures ok ==> forall c :: c in table.residual <==> c in old(table.residual) || InBlock(c, b)
      ensures !ok ==> table.Overflows()
      decreases table.octantDepth - nDepth, 9
    {
      hide Reader.Valid, Reader.Rest, Correct, Table.Stored, Table.Valid, Table.Overflows, Table.Planned, Table.Follows, TwelveBits, EncodeRows, Residual, EncodeParts;
      ghost var depth := table.octantDepth - nDepth;
      ghost var body := OctantBody(o, depth, table.flcBits);
      var split := 0;
      if nDepth < table.octantDepth {
        assert reader.Rest() == [o.Split?] + (body + rest);
        assert reader.Rest()[1..] == body + rest;
        split := reader.ReadFlag();
      } else {
        assert reader.Rest() == body + rest;
      }
      if split != 0 {
        ok := ParseParts(nDepth, b, o, rest);
      } else {
        ok := ParseLeaf(b, depth, Pow2(table.partNumLog2), table.flcBits, o.rows, rest);
      }
    }

    // The eight sub-octants, in three nested loops, luma outermost.
    method ParseParts(nDepth: nat, b: Block, ghost o: Octant, ghost rest: Bits) returns (ok: bool)
      requires nDepth < table.octantDepth && 1 <= table.flcBits <= 31 && o.Split?
      requires IsBlock(b, table.octantDepth - nDepth, Pow2(table.partNumLog2))
      requires Shape(o, table.octantDepth - nDepth, Pow2(table.partNumLog2), table.resQuantBit)
      requires table.Valid()
      requires forall c :: InBlock(c, b) ==> table.Inside(c) && c !in table.residual
      requires b.y > 0 ==> forall c :: InBlock(c, b) && c.y == b.y ==> Below(c) in table.residual
      requires reader.Valid()
      requires reader.Rest() == EncodeParts(o.parts, 0, table.octantDepth - nDepth - 1, table.flcBits) + rest
      requires forall c {:trigger InBlock(c, b)} :: InBlock(c, b) ==> table.plan(c) == Residual(o, b, c)
      modifies reader, table, table.cells
      ensures ok ==> table.Valid() && reader.Valid() && reader.Rest() == rest
      ensures ok ==> forall c :: c in table.residual <==> c in old(table.residual) || InBlock(c, b)
      ensures !ok ==> table.Overflows()
      decreases table.octantDepth - nDepth, 8
    {
      hide Reader.Valid, Reader.Rest, Table.Valid, Table.Overflows, Residual, PartOf, SubBlock, InBlock, IsBlock, Shape,
           EncodeParts, WrittenUpTo;
      ghost var res := table.residual;
      NothingWritten(b, res);
      EightParts(o, table.octantDepth - nDepth);
      ok := true;
      var l := 0;
      while l < 2 && ok
        invariant 0 <= l <= 2
        invariant ok ==> PartsDone(nDepth, b, o, rest, res, 4 * l)
        invariant !ok ==> table.Overflows()
        decreases 2 - l
      {
        var m := 0;
        while m < 2 && ok
          invariant 0 <= m <= 2
          invariant ok ==> PartsDone(nDepth, b, o, rest, res, 4 * l + 2 * m)
          invariant !ok ==> table.Overflows()
          decreases 2 - m
        {
          var n := 0;
          while n < 2 && ok
            invariant 0 <= n <= 2
            invariant ok ==> PartsDone(nDepth, b, o, rest, res, 4 * l + 2 * m + n)
            invariant !ok ==> table.Overflows()
            decreases 2 - n
          {
            ok := ParsePartAt(nDepth, b, l, m, n, o, rest, res);
            n := n + 1;
          }
          m := m + 1;
        }
        l := l + 1;
      }
      AllWritten(b, res, table.residual);
      assert ok ==> EncodeParts(o.parts, 8, table.octantDepth - nDepth - 1, table.flcBits) + rest == rest by {
        PartsEncodingEnd(o.parts, table.octantDepth - nDepth - 1, table.flcBits);
      }
    }

    // The first k parts are parsed and written, on top of what was written before.
    ghost predicate PartsDone(nDepth: nat, b: Block, o: Octant, rest: Bits, res: map<Cell, Vertex>, k: nat)
      reads reader, table, table.cells
    {
      && nDepth < table.octantDepth && o.Split? && k <= |o.parts| && |o.parts| == 8
      && table.Valid() && reader.Valid()
      && reader.Rest() == EncodeParts(o.parts, k, table.octantDepth - nDepth - 1, table.flcBits) + rest
      && WrittenUpTo(b, res, table.residual, k)
    }

    ghost predicate WrittenUpTo(b: Block, res: map<Cell, Vertex>, now: map<Cell, Vertex>, k: nat) {
      forall c :: c in now <==> c in res || (InBlock(c, b) && PartOf(b, c) < k)
    }

    lemma EightParts(o: Octant, depth: nat)
      requires o.Split? && Shape(o, depth, Pow2(table.partNumLog2), table.resQuantBit)
      ensures |o.parts| == 8
    {
    }

    lemma NothingWritten(b: Block, res: map<Cell, Vertex>)
      ensures WrittenUpTo(b, res, res, 0)
    {
    }

    lemma AllWritten(b: Block, res: map<Cell, Vertex>, now: map<Cell, Vertex>)
      ensures WrittenUpTo(b, res, now, 8) ==> forall c :: c in now <==> c in res || InBlock(c, b)
    {
    }

    // One sub-octant.
    method ParsePartAt(nDepth: nat, b: Block, l: nat, m: nat, n: nat, ghost o: Octant, ghost rest: Bits,
                       ghost res: map<Cell, Vertex>) returns (ok: bool)
      requires nDepth < table.octantDepth && 1 <= table.flcBits <= 31 && l < 2 && m < 2 && n < 2
      requires IsBlock(b, table.octantDepth - nDepth, Pow2(table.partNumLog2))
      requires Shape(o, table.octantDepth - nDepth, Pow2(table.partNumLog2), table.resQuantBit)
      requires PartsDone(nDepth, b, o, rest, res, 4 * l + 2 * m + n)
      requires forall c :: InBlock(c, b) ==> table.Inside(c) && c !in res
      requires b.y > 0 ==> forall c :: InBlock(c, b) && c.y == b.y ==> Below(c) in res
      requires forall c {:trigger InBlock(c, b)} :: InBlock(c, b) ==> table.plan(c) == Residual(o, b, c)
      modifies reader, table, table.cells
      ensures ok ==> PartsDone(nDepth, b, o, rest, res, 4 * l + 2 * m + n + 1)
      ensures !ok ==> table.Overflows()
      decreases table.octantDepth - nDepth, 7
    {
      hide Reader.Valid, Reader.Rest, Correct, Table.Stored, Table.Valid, Table.Overflows, Table.Planned, Table.Follows, TwelveBits,
           EncodeOctant, Residual, PartOf, SubBlock, InBlock, EncodeParts;
      ghost var depth, r, k := (table.octantDepth - nDepth - 1) as nat, table.flcBits, 4 * l + 2 * m + n;
      PartIsNext(b, depth, Pow2(table.partNumLog2), k, res, table.residual);
      PartsEncoding(o.parts, k, depth, r, rest);
      PartResidual(o, b, k);
      PartBlock(b, l, m, n, depth, Pow2(table.partNumLog2));
      var half := b.side / 2;
      var part := Block(b.y + l * (half * Pow2(table.partNumLog2)), b.u + m * half, b.v + n * half, half,
                        half * Pow2(table.partNumLog2));
      ok := ParseOctant(nDepth + 1, part, o.parts[k], EncodeParts(o.parts, k + 1, depth, r) + rest);
    }

    // The place of a part, as the loops count it.
    lemma PartBlock(b: Block, l: nat, m: nat, n: nat, depth: nat, parts: nat)
      requires l < 2 && m < 2 && n < 2 && IsBlock(b, depth + 1, parts)
      ensures var half := b.side / 2;
        SubBlock(b, 4 * l + 2 * m + n) ==
        Block(b.y + l * (half * parts), b.u + m * half, b.v + n * half, half, half * parts)
    {
      assert b.height == 2 * (Pow2(depth) * parts) && b.side == 2 * Pow2(depth);
    }

    lemma PartsEncoding(ps: seq<Octant>, k: nat, depth: nat, r: nat, rest: Bits)
      requires k < |ps|
      ensures EncodeParts(ps, k, depth, r) + rest ==
        EncodeOctant(ps[k], depth, r) + (EncodeParts(ps, k + 1, depth, r) + rest)
    {
      hide EncodeOctant;
    }

    lemma PartsEncodingEnd(ps: seq<Octant>, depth: nat, r: nat)
      ensures EncodeParts(ps, |ps|, depth, r) == []
    {
    }

    // A part takes its residuals from its sub-octant.
    lemma PartResidual(o: Octant, b: Block, k: nat)
      requires o.Split? && k < |o.parts| == 8
      ensures forall c :: PartOf(b, c) == k ==> Residual(o, b, c) == Residual(o.parts[k], SubBlock(b, k), c)
    {
    }

    // The k-th part is not written yet, and what lies below it is.
    lemma PartIsNext(b: Block, depth: nat, parts: nat, k: nat, res: map<Cell, Vertex>, now: map<Cell, Vertex>)
      requires IsBlock(b, depth + 1, parts) && 0 < parts && k < 8
      requires forall c :: c in now <==> c in res || (InBlock(c, b) && PartOf(b, c) < k)
      requires forall c :: InBlock(c, b) ==> c !in res
      requires b.y > 0 ==> forall c :: InBlock(c, b) && c.y == b.y ==> Below(c) in res
      ensures IsBlock(SubBlock(b, k), depth, parts)
      ensures forall c :: InBlock(c, SubBlock(b, k)) <==> InBlock(c, b) && PartOf(b, c) == k
      ensures forall c :: InBlock(c, SubBlock(b, k)) ==> c !in now
      ensures SubBlock(b, k).y > 0 ==>
        forall c :: InBlock(c, SubBlock(b, k)) && c.y == SubBlock(b, k).y ==> Below(c) in now
    {
      SubBlockIsBlock(b, depth, parts, k);
      forall c ensures InBlock(c, SubBlock(b, k)) <==> InBlock(c, b) && PartOf(b, c) == k {
        PartsPartition(b, c, k);
      }
      forall c | SubBlock(b, k).y > 0 && InBlock(c, SubBlock(b, k)) && c.y == SubBlock(b, k).y
        ensures Below(c) in now
      {
        if k >= 4 {
          assert b.height / 2 == Pow2(depth) * parts > 0;
          assert InBlock(Below(c), b) && PartOf(b, Below(c)) == k - 4;
        }
      }
    }

    // What an octree codes for a cell of the whole table.
    ghost function CodedAt(o: Octant, c: Cell): Vertex {
      ResidualAt(o, Pow2(table.octantDepth), Pow2(table.octantDepth) * Pow2(table.partNumLog2), c.y, c.u, c.v, c.i)
    }

    // The block of the whole table.
    ghost function WholeBlock(): Block {
      Block(0, 0, 0, Pow2(table.octantDepth), Pow2(table.octantDepth) * Pow2(table.partNumLog2))
    }

    lemma WholeTable(o: Octant)
      requires table.cells.Length0 == Pow2(table.octantDepth + table.partNumLog2)
      requires table.cells.Length1 == table.cells.Length2 == Pow2(table.octantDepth) && table.cells.Length3 == 4
      requires Shape(o, table.octantDepth, Pow2(table.partNumLog2), table.resQuantBit)
      ensures IsBlock(WholeBlock(), table.octantDepth, Pow2(table.partNumLog2))
      ensures forall c :: table.Inside(c) <==> InBlock(c, WholeBlock())
      ensures forall c :: InBlock(c, WholeBlock()) ==> Residual(o, WholeBlock(), c) == CodedAt(o, c)
    {
      PowersAdd(table.octantDepth, table.partNumLog2);
      hide Shape, Residual, ResidualAt;
      forall c | InBlock(c, WholeBlock())
        ensures Residual(o, WholeBlock(), c) == CodedAt(o, c)
      {
        ResidualIs(o, WholeBlock(), c, table.octantDepth, Pow2(table.partNumLog2), table.resQuantBit);
      }
    }

    // The call from xParse3DAsymLUT: for every octree, the table ends up written in every cell, from the
    // residual that the octree codes there, and exactly the bits of the octree are consumed. It fails if and
    // only if the residuals make some cell of the table exceed 12 bits.
    method ParseTable(ghost o: Octant, ghost rest: Bits) returns (ok: bool)
      requires table.Valid() && table.residual == map[] && 1 <= table.flcBits <= 31
      requires table.cells.Length0 == Pow2(table.octantDepth + table.partNumLog2)
      requires table.cells.Length1 == table.cells.Length2 == Pow2(table.octantDepth) && table.cells.Length3 == 4
      requires Shape(o, table.octantDepth, Pow2(table.partNumLog2), table.resQuantBit)
      requires reader.Valid() && reader.Rest() == EncodeOctant(o, table.octantDepth, table.flcBits) + rest
      requires forall c :: table.Inside(c) ==> table.plan(c) == CodedAt(o, c)
      modifies reader, table, table.cells
      ensures ok ==> table.Valid() && reader.Valid() && reader.Rest() == rest
      ensures ok ==> forall c :: c in table.residual <==> table.Inside(c)
      ensures ok ==> forall c :: table.Inside(c) ==> table.residual[c] == CodedAt(o, c)
      ensures ok <==> !table.Overflows()
    {
      hide Reader.Valid, Reader.Rest, Correct, Table.Stored, Table.Valid, Table.Overflows, Table.Planned, Table.Follows, TwelveBits, EncodeOctant, Residual;
      WholeTable(o);
      ok := ParseOctant(0, Block(0, 0, 0, Pow2(table.octantDepth), Pow2(table.octantDepth) * Pow2(table.partNumLog2)), o, rest);
      if ok {
        table.WrittenAsPlanned();
      }
    }
  }
}
