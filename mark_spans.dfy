/** The editor's display normalisation (`markSpans`): a first pass walks each row's
    column positions, places the row's cells one by one on the positions no earlier
    cell covers, and marks every position a placed cell's row and column spans
    cover; a second pass gives each row only as many of its cells, in order, as the
    row has unmarked positions. Positions are `(row, column)` pairs; the source keys
    them as the text `row-column`, which is one-to-one on such pairs. */
module MarkSpans {
  import opened Wrappers
  import opened Types

  type Pos = (int, int)

  function Min(a: nat, b: nat): nat {
    if a <= b then a else b
  }

  /** The position `i` rows below and `j` columns right of `(r, c)`. */
  function Offset(r: int, c: int, i: int, j: int): Pos {
    (r + i, c + j)
  }

  /** The positions a cell placed at `(r, c)` covers besides its own. */
  function Covered(r: int, c: int, rs: nat, cs: nat): set<Pos> {
    set i, j | 0 <= i < rs && 0 <= j < cs && !(i == 0 && j == 0) :: Offset(r, c, i, j)
  }

  /** A placed cell covers the block of `rs` rows and `cs` columns below and to the
      right of its own position, its own position excepted. */
  lemma CoveredMembers(r: int, c: int, rs: nat, cs: nat, p: Pos)
    ensures p in Covered(r, c, rs, cs) <==> r <= p.0 < r + rs && c <= p.1 < c + cs && p != (r, c)
  {
    if r <= p.0 < r + rs && c <= p.1 < c + cs && p != (r, c) {
      var i, j := p.0 - r, p.1 - c;
      assert Offset(r, c, i, j) == p;
    }
  }

  /** The innermost loops of the first pass: mark every position the block covers. */
  method MarkCovered(occupied: set<Pos>, r: int, c: int, rs: nat, cs: nat) returns (occ: set<Pos>)
    ensures occ == occupied + Covered(r, c, rs, cs)
  {
    occ := occupied;
    for i := 0 to rs
      invariant forall p :: p in occ <==> p in occupied || (r <= p.0 < r + i && c <= p.1 < c + cs && p != (r, c))
    {
      for j := 0 to cs
        invariant forall p :: p in occ <==> p in occupied || (r <= p.0 < r + i && c <= p.1 < c + cs && p != (r, c))
                                                      || (p.0 == r + i && c <= p.1 < c + j && p != (r, c))
      {
        if i == 0 && j == 0 {
          continue;
        }
        occ := occ + {(r + i, c + j)};
      }
    }
    forall p ensures p in occ <==> p in occupied + Covered(r, c, rs, cs) {
      CoveredMembers(r, c, rs, cs, p);
    }
  }

  /** The first pass over row `r` from column `c`, with `cellIndex` cells placed so
      far: a marked position is skipped, the row stops when its cells run out, and a
      placed cell marks what it covers. */
  function MarkRow(cells: seq<Cell>, r: int, c: nat, cellIndex: nat, cols: nat, occ: set<Pos>): set<Pos>
    decreases cols - c
  {
    if c >= cols then occ
    else if (r, c) in occ then MarkRow(cells, r, c + 1, cellIndex, cols, occ)
    else if cellIndex >= |cells| then occ
    else
      var cell := cells[cellIndex];
      MarkRow(cells, r, c + 1, cellIndex + 1, cols, occ + Covered(r, c, SpanCount(cell.rowSpan), SpanCount(cell.colSpan)))
  }

  /** The positions marked once the first pass has walked all rows. */
  function Occupied(rows: seq<Row>, cols: nat): set<Pos>
    decreases |rows|
  {
    if rows == [] then {}
    else MarkRow(rows[|rows| - 1].cells, |rows| - 1, 0, 0, cols, Occupied(rows[..|rows| - 1], cols))
  }

  /** The first pass of `markSpans`. */
  method FirstPass(rows: seq<Row>, cols: nat) returns (occupied: set<Pos>)
    ensures occupied == Occupied(rows, cols)
  {
    occupied := {};
    for r := 0 to |rows|
      invariant occupied == Occupied(rows[..r], cols)
    {
      assert rows[..r + 1][..r] == rows[..r];
      ghost var start := occupied;
      var cells := rows[r].cells;
      var cellIndex := 0;
      var c := 0;
      while c < cols
        invariant c <= cols
        invariant MarkRow(cells, r, c, cellIndex, cols, occupied) == MarkRow(cells, r, 0, 0, cols, start)
        decreases cols - c
      {
        if (r, c) in occupied {
          c := c + 1;
          continue;
        }
        if cellIndex >= |cells| {
          break;
        }
        var cell := cells[cellIndex];
        occupied := MarkCovered(occupied, r, c, SpanCount(cell.rowSpan), SpanCount(cell.colSpan));
        cellIndex := cellIndex + 1;
        c := c + 1;
      }
    }
    assert rows[..|rows|] == rows;
  }

  /** The number of columns before `n` of row `r` that no cell covers. */
  function FreeUpTo(occ: set<Pos>, r: int, n: nat): (k: nat)
    ensures k <= n
  {
    if n == 0 then 0 else FreeUpTo(occ, r, n - 1) + (if (r, n - 1) in occ then 0 else 1)
  }

  /** The second pass of `markSpans`: each row keeps its cells in order, as many as
      it has unmarked positions, and nothing else about the row changes. */
  method SecondPass(rows: seq<Row>, occupied: set<Pos>, cols: nat) returns (out: seq<Row>)
    ensures |out| == |rows|
    ensures forall r :: 0 <= r < |rows| ==>
              out[r] == rows[r].(cells := rows[r].cells[..Min(|rows[r].cells|, FreeUpTo(occupied, r, cols))])
  {
    out := [];
    for r := 0 to |rows|
      invariant |out| == r
      invariant forall k :: 0 <= k < r ==>
                  out[k] == rows[k].(cells := rows[k].cells[..Min(|rows[k].cells|, FreeUpTo(occupied, k, cols))])
    {
      var cells := rows[r].cells;
      var cellIndex := 0;
      var newCells := [];
      for c := 0 to cols
        invariant cellIndex == Min(|cells|, FreeUpTo(occupied, r, c))
        invariant newCells == cells[..cellIndex]
      {
        if (r, c) in occupied {
          continue;
        }
        if cellIndex < |cells| {
          newCells := newCells + [cells[cellIndex]];
          cellIndex := cellIndex + 1;
        }
      }
      out := out + [rows[r].(cells := newCells)];
    }
  }

  /** The rows as `markSpans` returns them. */
  function NormalizedRows(rows: seq<Row>, cols: nat): (out: seq<Row>)
    ensures |out| == |rows|
    ensures forall r :: 0 <= r < |rows| ==>
              out[r].uid == rows[r].uid && |out[r].cells| <= cols && out[r].cells <= rows[r].cells
  {
    var occ := Occupied(rows, cols);
    seq(|rows|, r requires 0 <= r < |rows| =>
      rows[r].(cells := rows[r].cells[..Min(|rows[r].cells|, FreeUpTo(occ, r, cols))]))
  }

  /** `markSpans(rows)`: both passes. */
  method MarkSpans(rows: seq<Row>, cols: nat) returns (out: seq<Row>)
    ensures out == NormalizedRows(rows, cols)
  {
    var occupied := FirstPass(rows, cols);
    out := SecondPass(rows, occupied, cols);
  }

  /** The table as the editor displays it. */
  datatype NormalizedTable = NormalizedTable(header: Option<Row>, body: seq<Row>, footer: Option<Row>)

  /** The normalised table: header and footer are each normalised on their own, the
      body rows together, all against the table's column count. */
  function Normalized(t: Table): (n: NormalizedTable)
    ensures n.header.Some? <==> t.header.Some?
    ensures n.footer.Some? <==> t.footer.Some?
    ensures |n.body| == |t.body|
  {
    var cols := ColumnBound(t.cols);
    NormalizedTable(
      if t.header.Some? then Some(NormalizedRows([t.header.value], cols)[0]) else None,
      NormalizedRows(t.body, cols),
      if t.footer.Some? then Some(NormalizedRows([t.footer.value], cols)[0]) else None)
  }

  // ---------------------------------------------------------------- properties

  /** No cell spans more than one row or column. */
  predicate NoSpans(rows: seq<Row>) {
    forall r, k :: 0 <= r < |rows| && 0 <= k < |rows[r].cells| ==>
      SpanCount(rows[r].cells[k].rowSpan) <= 1 && SpanCount(rows[r].cells[k].colSpan) <= 1
  }

  lemma CoveredEmpty(r: int, c: int, rs: nat, cs: nat)
    requires rs <= 1 && cs <= 1
    ensures Covered(r, c, rs, cs) == {}
  {
    forall p | p in Covered(r, c, rs, cs) ensures false {
      CoveredMembers(r, c, rs, cs, p);
    }
  }

  lemma {:induction false} MarkRowNoSpans(cells: seq<Cell>, r: int, c: nat, cellIndex: nat, cols: nat)
    requires forall k :: 0 <= k < |cells| ==> SpanCount(cells[k].rowSpan) <= 1 && SpanCount(cells[k].colSpan) <= 1
    ensures MarkRow(cells, r, c, cellIndex, cols, {}) == {}
    decreases cols - c
  {
    if c < cols && cellIndex < |cells| {
      var cell := cells[cellIndex];
      CoveredEmpty(r, c, SpanCount(cell.rowSpan), SpanCount(cell.colSpan));
      assert {} + Covered(r, c, SpanCount(cell.rowSpan), SpanCount(cell.colSpan)) == {};
      MarkRowNoSpans(cells, r, c + 1, cellIndex + 1, cols);
    }
  }

  /** Without spans the first pass marks nothing. */
  lemma {:induction false} NoSpansNothingOccupied(rows: seq<Row>, cols: nat)
    requires NoSpans(rows)
    ensures Occupied(rows, cols) == {}
    decreases |rows|
  {
    if rows != [] {
      var init := rows[..|rows| - 1];
      assert NoSpans(init) by {
        forall r, k | 0 <= r < |init| && 0 <= k < |init[r].cells|
          ensures SpanCount(init[r].cells[k].rowSpan) <= 1 && SpanCount(init[r].cells[k].colSpan) <= 1
        {
          assert init[r] == rows[r];
        }
      }
      NoSpansNothingOccupied(init, cols);
      var last := rows[|rows| - 1];
      assert forall k :: 0 <= k < |last.cells| ==> SpanCount(last.cells[k].rowSpan) <= 1 && SpanCount(last.cells[k].colSpan) <= 1;
      MarkRowNoSpans(last.cells, |rows| - 1, 0, 0, cols);
    }
  }

  lemma {:induction false} AllFree(r: int, n: nat)
    ensures FreeUpTo({}, r, n) == n
  {
    if n > 0 {
      AllFree(r, n - 1);
    }
  }

  /** Without spans the display shows each row's first `cols` cells. */
  lemma NoSpansTruncates(rows: seq<Row>, cols: nat)
    requires NoSpans(rows)
    ensures forall r :: 0 <= r < |rows| ==>
              NormalizedRows(rows, cols)[r].cells == rows[r].cells[..Min(|rows[r].cells|, cols)]
  {
    NoSpansNothingOccupied(rows, cols);
    forall r | 0 <= r < |rows| ensures FreeUpTo({}, r, cols) == cols {
      AllFree(r, cols);
    }
  }

  lemma {:induction false} MarkRowGrows(cells: seq<Cell>, r: int, c: nat, cellIndex: nat, cols: nat, occ: set<Pos>)
    ensures occ <= MarkRow(cells, r, c, cellIndex, cols, occ)
    decreases cols - c
  {
    if c < cols {
      if (r, c) in occ {
        MarkRowGrows(cells, r, c + 1, cellIndex, cols, occ);
      } else if cellIndex < |cells| {
        var cell := cells[cellIndex];
        MarkRowGrows(cells, r, c + 1, cellIndex + 1, cols, occ + Covered(r, c, SpanCount(cell.rowSpan), SpanCount(cell.colSpan)));
      }
    }
  }

  /** Marks are never taken back: later rows only add to what earlier rows marked. */
  lemma {:induction false} OccupiedGrows(rows: seq<Row>, n: nat, cols: nat)
    requires n <= |rows|
    ensures Occupied(rows[..n], cols) <= Occupied(rows, cols)
    decreases |rows| - n
  {
    if n < |rows| {
      var init := rows[..|rows| - 1];
      assert rows[..n] == init[..n];
      OccupiedGrows(init, n, cols);
      MarkRowGrows(rows[|rows| - 1].cells, |rows| - 1, 0, 0, cols, Occupied(init, cols));
    } else {
      assert rows[..n] == rows;
    }
  }

  /** A first cell spanning `rs` rows and `cs` columns of the first row hides the
      positions of its block: the rows below it lose a position each, and the first
      row loses the columns to its right. */
  lemma FirstCellSpanHides(rows: seq<Row>, cols: nat, p: Pos)
    requires rows != [] && rows[0].cells != [] && cols >= 1
    requires var first := rows[0].cells[0];
             0 <= p.0 < SpanCount(first.rowSpan) && 0 <= p.1 < SpanCount(first.colSpan) && p != (0, 0)
    ensures p in Occupied(rows, cols)
  {
    var first := rows[0].cells[0];
    var block := Covered(0, 0, SpanCount(first.rowSpan), SpanCount(first.colSpan));
    CoveredMembers(0, 0, SpanCount(first.rowSpan), SpanCount(first.colSpan), p);
    assert rows[..1][..0] == [];
    assert Occupied(rows[..1], cols) == MarkRow(rows[0].cells, 0, 1, 1, cols, {} + block);
    MarkRowGrows(rows[0].cells, 0, 1, 1, cols, {} + block);
    OccupiedGrows(rows, 1, cols);
  }
}
