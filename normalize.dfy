/** The row-span normaliser of the parser. A body cell whose row span N is above 1
    flags the cell at the SAME CELL INDEX in each of the next N-1 existing body rows;
    the flags are read from the original spans (flagging never changes a span), and
    a flagged cell still spans. A final pass drops every flagged cell. Header and
    footer are not touched. */
module Normalize {
  import opened Wrappers
  import opened Types

  /** Body cell `body[ra].cells[k]` reaches down over row `rb` at cell index `k`. */
  predicate Covers(body: seq<Row>, ra: nat, rb: nat, k: nat) {
    ra < rb < |body| && k < |body[ra].cells| && rb - ra < SpanCount(body[ra].cells[k].rowSpan)
  }

  /** Some cell of an earlier row reaches down over index `k` of row `rb`. */
  predicate Absorbed(body: seq<Row>, rb: nat, k: nat) {
    exists ra: nat | ra < rb :: Covers(body, ra, rb, k)
  }

  /** A cell with its flag raised when `flag` holds; a cell already flagged stays flagged. */
  function Mark(c: Cell, flag: bool): (m: Cell)
    ensures m.removed == (c.removed || flag)
    ensures m.(removed := c.removed) == c
  {
    c.(removed := c.removed || flag)
  }

  /** Row `rb` of the body after the flagging loops. */
  function Flagged(body: seq<Row>, rb: nat): (cells: seq<Cell>)
    requires rb < |body|
    ensures |cells| == |body[rb].cells|
  {
    seq(|body[rb].cells|, k requires 0 <= k < |body[rb].cells| => Mark(body[rb].cells[k], Absorbed(body, rb, k)))
  }

  /** The body after both passes. */
  function NormalizeBody(body: seq<Row>): (r: seq<Row>)
    ensures |r| == |body|
    ensures forall rb :: 0 <= rb < |body| ==> r[rb].uid == body[rb].uid
  {
    seq(|body|, rb requires 0 <= rb < |body| => body[rb].(cells := Visible(Flagged(body, rb))))
  }

  /** `normalizeRowSpan(table)`: only the body changes. */
  function NormalizeTable(t: Table): Table {
    t.(body := NormalizeBody(t.body))
  }

  // ---------------------------------------------------------------- the loops

  /** Whether the loops have flagged index `k` of row `rb` once every cell before
      `(r, c)` is done and cell `(r, c)` has flagged rows `r+1 .. r+i-1`. */
  predicate CoveredSoFar(body: seq<Row>, r: nat, c: nat, i: nat, rb: nat, k: nat) {
    || (exists ra: nat | ra < r :: Covers(body, ra, rb, k))
    || (k < c && Covers(body, r, rb, k))
    || (k == c && rb < r + i && Covers(body, r, rb, k))
  }

  /** The working copy of the body at that point of the loops. */
  predicate Progress(body: seq<Row>, matrix: seq<Row>, r: nat, c: nat, i: nat) {
    && |matrix| == |body|
    && (forall rb :: 0 <= rb < |body| ==> matrix[rb].uid == body[rb].uid && |matrix[rb].cells| == |body[rb].cells|)
    && (forall rb, k :: 0 <= rb < |body| && 0 <= k < |body[rb].cells| ==>
          matrix[rb].cells[k] == Mark(body[rb].cells[k], CoveredSoFar(body, r, c, i, rb, k)))
  }

  /** `belowRow.cells[c]._removedDueToRowSpan = true` when that cell exists. */
  function FlagCell(matrix: seq<Row>, rb: nat, k: nat): (m: seq<Row>)
    requires rb < |matrix|
    ensures |m| == |matrix|
  {
    if k < |matrix[rb].cells| then
      var cells := matrix[rb].cells;
      matrix[rb := matrix[rb].(cells := cells[k := cells[k].(removed := true)])]
    else matrix
  }

  lemma ProgressStart(body: seq<Row>)
    ensures Progress(body, body, 0, 0, 1)
  {
  }

  /** One pass of the innermost loop flags the cell one row further down. */
  lemma ProgressFlag(body: seq<Row>, matrix: seq<Row>, r: nat, c: nat, i: nat)
    requires Progress(body, matrix, r, c, i)
    requires r < |body| && c < |body[r].cells| && 1 <= i < SpanCount(body[r].cells[c].rowSpan) && r + i < |body|
    ensures Progress(body, FlagCell(matrix, r + i, c), r, c, i + 1)
  {
    var m := FlagCell(matrix, r + i, c);
    forall rb, k | 0 <= rb < |body| && 0 <= k < |body[rb].cells|
      ensures m[rb].cells[k] == Mark(body[rb].cells[k], CoveredSoFar(body, r, c, i + 1, rb, k))
    {
      if rb == r + i && k == c {
        assert Covers(body, r, rb, k);
      }
    }
  }

  /** When the span is used up, or the rows run out, the cell is done. */
  lemma ProgressNextCell(body: seq<Row>, matrix: seq<Row>, r: nat, c: nat, i: nat)
    requires Progress(body, matrix, r, c, i)
    requires r < |body| && c < |body[r].cells| && 1 <= i
    requires i >= SpanCount(body[r].cells[c].rowSpan) || r + i >= |body|
    ensures Progress(body, matrix, r, c + 1, 1)
  {
    forall rb, k | 0 <= rb < |body| && 0 <= k < |body[rb].cells|
      ensures CoveredSoFar(body, r, c, i, rb, k) == CoveredSoFar(body, r, c + 1, 1, rb, k)
    {
    }
  }

  /** When the cells of row `r` are done, the row is done. */
  lemma ProgressNextRow(body: seq<Row>, matrix: seq<Row>, r: nat)
    requires r < |body| && Progress(body, matrix, r, |body[r].cells|, 1)
    ensures Progress(body, matrix, r + 1, 0, 1)
  {
    forall rb, k | 0 <= rb < |body| && 0 <= k < |body[rb].cells|
      ensures CoveredSoFar(body, r, |body[r].cells|, 1, rb, k) == CoveredSoFar(body, r + 1, 0, 1, rb, k)
    {
      if Covers(body, r, rb, k) {
        assert exists ra: nat | ra < r + 1 :: Covers(body, ra, rb, k);
      }
      if exists ra: nat | ra < r + 1 :: Covers(body, ra, rb, k) {
        var ra: nat :| ra < r + 1 && Covers(body, ra, rb, k);
        if ra < r {
          assert exists ra': nat | ra' < r :: Covers(body, ra', rb, k);
        }
      }
    }
  }

  /** After the last row every flag is the closed form. */
  lemma ProgressDone(body: seq<Row>, matrix: seq<Row>)
    requires Progress(body, matrix, |body|, 0, 1)
    ensures forall rb :: 0 <= rb < |body| ==> matrix[rb].cells == Flagged(body, rb)
  {
    forall rb, k | 0 <= rb < |body| && 0 <= k < |body[rb].cells|
      ensures CoveredSoFar(body, |body|, 0, 1, rb, k) == Absorbed(body, rb, k)
    {
      if CoveredSoFar(body, |body|, 0, 1, rb, k) {
        var ra: nat :| ra < |body| && Covers(body, ra, rb, k);
        assert ra < rb;
      }
      if Absorbed(body, rb, k) {
        var ra: nat :| ra < rb && Covers(body, ra, rb, k);
        assert ra < |body|;
      }
    }
  }

  /** `normalizeRowSpan` as the source runs it: nested loops that flag cells in a
      working copy of the body, then a filter over every row. */
  method NormalizeRowSpan(table: Table) returns (result: Table)
    ensures result == NormalizeTable(table)
  {
    var body := table.body;
    var matrix := FlagCoveredCells(body);
    var j := 0;
    while j < |matrix|
      invariant j <= |matrix| == |body|
      invariant forall rb :: 0 <= rb < j ==> matrix[rb] == NormalizeBody(body)[rb]
      invariant forall rb :: j <= rb < |body| ==> matrix[rb] == body[rb].(cells := Flagged(body, rb))
    {
      matrix := matrix[j := matrix[j].(cells := Visible(matrix[j].cells))];
      j := j + 1;
    }
    result := table.(body := matrix);
  }

  /** The two outer loops: every cell of every row, in order. */
  method FlagCoveredCells(body: seq<Row>) returns (matrix: seq<Row>)
    ensures |matrix| == |body|
    ensures forall rb :: 0 <= rb < |body| ==> matrix[rb] == body[rb].(cells := Flagged(body, rb))
  {
    matrix := body;
    ProgressStart(body);
    var r := 0;
    while r < |matrix|
      invariant |matrix| == |body| && r <= |body|
      invariant Progress(body, matrix, r, 0, 1)
    {
      var row := matrix[r];
      var c := 0;
      while c < |row.cells|
        invariant |row.cells| == |body[r].cells| && c <= |row.cells|
        invariant Progress(body, matrix, r, c, 1)
      {
        matrix := FlagBelow(body, matrix, r, c);
        c := c + 1;
      }
      ProgressNextRow(body, matrix, r);
      r := r + 1;
    }
    ProgressDone(body, matrix);
  }

  /** The body of the middle loop: a cell spanning more than one row flags the cell at
      its index in each following row the span reaches, while such rows exist. */
  method FlagBelow(body: seq<Row>, matrix0: seq<Row>, r: nat, c: nat) returns (matrix: seq<Row>)
    requires r < |body| && c < |body[r].cells| && Progress(body, matrix0, r, c, 1)
    ensures Progress(body, matrix, r, c + 1, 1)
  {
    matrix := matrix0;
    var cell := matrix[r].cells[c];
    assert cell.rowSpan == body[r].cells[c].rowSpan;
    var i := 1;
    if SpanCount(cell.rowSpan) > 1 {
      var span := SpanCount(cell.rowSpan);
      while i < span
        invariant 1 <= i <= span
        invariant Progress(body, matrix, r, c, i)
        decreases span - i
      {
        if r + i >= |matrix| {
          break;
        }
        ProgressFlag(body, matrix, r, c, i);
        matrix := FlagCell(matrix, r + i, c);
        i := i + 1;
      }
    }
    ProgressNextCell(body, matrix, r, c, i);
  }
}


// ---------------------------------------------------------------- properties

module NormalizeProperties {
  import opened Wrappers
  import opened Types
  import opened Normalize
  import MarkSpans

  /** A body cell spanning N > 1 rows flags the cell at its own index in each of the
      next N-1 rows that exist and are long enough. */
  lemma SpanFlagsSameIndexBelow(body: seq<Row>, r: nat, c: nat, rb: nat)
    requires r < rb < |body| && c < |body[r].cells| && c < |body[rb].cells|
    requires rb - r < SpanCount(body[r].cells[c].rowSpan)
    ensures Flagged(body, rb)[c].removed
  {
    assert Covers(body, r, rb, c);
  }

  /** A cell stays exactly when it was not flagged before and no earlier row's cell
      reaches over its index; a surviving cell is the original cell, unchanged. */
  lemma NormalizeKeeps(body: seq<Row>, rb: nat, x: Cell)
    requires rb < |body|
    ensures x in NormalizeBody(body)[rb].cells <==>
            exists k :: 0 <= k < |body[rb].cells| && body[rb].cells[k] == x && !x.removed && !Absorbed(body, rb, k)
  {
    var f := Flagged(body, rb);
    assert NormalizeBody(body)[rb].cells == Visible(f);
    if x in Visible(f) {
      var k :| 0 <= k < |f| && f[k] == x;
      assert body[rb].cells[k] == x;
    }
    if exists k :: 0 <= k < |body[rb].cells| && body[rb].cells[k] == x && !x.removed && !Absorbed(body, rb, k) {
      var k :| 0 <= k < |body[rb].cells| && body[rb].cells[k] == x && !x.removed && !Absorbed(body, rb, k);
      assert f[k] == x;
    }
  }

  /** With uids unique in a row, a covered cell is gone from that row. */
  lemma CoveredCellDropped(body: seq<Row>, rb: nat, k: nat)
    requires rb < |body| && k < |body[rb].cells| && Absorbed(body, rb, k)
    requires forall j :: 0 <= j < |body[rb].cells| && j != k ==> body[rb].cells[j].uid != body[rb].cells[k].uid
    ensures body[rb].cells[k] !in NormalizeBody(body)[rb].cells
  {
    NormalizeKeeps(body, rb, body[rb].cells[k]);
  }

  /** A row none of whose cells is flagged or covered comes out as it went in. */
  lemma RowUntouched(body: seq<Row>, rb: nat)
    requires rb < |body|
    requires forall k :: 0 <= k < |body[rb].cells| ==> !body[rb].cells[k].removed && !Absorbed(body, rb, k)
    ensures NormalizeBody(body)[rb] == body[rb]
  {
    var f := Flagged(body, rb);
    assert f == body[rb].cells;
    VisibleOfUnflagged(f);
  }

  /** A row every cell of which is covered comes out empty. */
  lemma RowCleared(body: seq<Row>, rb: nat)
    requires rb < |body|
    requires forall k :: 0 <= k < |body[rb].cells| ==> Absorbed(body, rb, k)
    ensures NormalizeBody(body)[rb].cells == []
  {
    VisibleOfFlagged(Flagged(body, rb));
  }

  /** A body where no cell spans more than one row and none is flagged is left as it is. */
  lemma NoRowSpanNoChange(body: seq<Row>)
    requires forall rb, k :: 0 <= rb < |body| && 0 <= k < |body[rb].cells| ==>
               SpanCount(body[rb].cells[k].rowSpan) <= 1 && !body[rb].cells[k].removed
    ensures NormalizeBody(body) == body
  {
    forall rb | 0 <= rb < |body|
      ensures NormalizeBody(body)[rb] == body[rb]
    {
      forall k | 0 <= k < |body[rb].cells| ensures !Absorbed(body, rb, k) {
        forall ra: nat | ra < rb ensures !Covers(body, ra, rb, k) {
        }
      }
      RowUntouched(body, rb);
    }
  }

  lemma {:induction false} VisibleOfUnflagged(cells: seq<Cell>)
    requires forall k :: 0 <= k < |cells| ==> !cells[k].removed
    ensures Visible(cells) == cells
  {
    if cells != [] {
      VisibleOfUnflagged(cells[1..]);
    }
  }

  lemma {:induction false} VisibleOfFlagged(cells: seq<Cell>)
    requires forall k :: 0 <= k < |cells| ==> cells[k].removed
    ensures Visible(cells) == []
  {
    if cells != [] {
      VisibleOfFlagged(cells[1..]);
    }
  }

  function TextOf(uid: Uid, value: string, rowSpan: Option<SpanValue>): Cell {
    Cell(uid, "text", map["value" := value], None, rowSpan, None, false)
  }

  /** The body of the documented row-span example, `{rowSpan="2"} Electronics | TV`,
      `Monitor`, `{rowSpan="2"} Furniture | Chair`, `Table`. */
  function DocBody(): seq<Row> {
    [ Row(1, [TextOf(2, "Electronics", Some(SpanNum(2))), TextOf(3, "TV", None)]),
      Row(4, [TextOf(5, "Monitor", None)]),
      Row(6, [TextOf(7, "Furniture", Some(SpanNum(2))), TextOf(8, "Chair", None)]),
      Row(9, [TextOf(10, "Table", None)]) ]
  }

  /** The documented example loses "Monitor" and "Table": they sit at index 0, the
      index of the spanning cells above them. */
  lemma DocExampleLosesCells()
    ensures var n := NormalizeBody(DocBody());
            n[0] == DocBody()[0] && n[1].cells == [] && n[2] == DocBody()[2] && n[3].cells == []
  {
    DocRowsCleared();
    DocRowsKept();
  }

  lemma DocRowsCleared()
    ensures NormalizeBody(DocBody())[1].cells == []
    ensures NormalizeBody(DocBody())[3].cells == []
  {
    DocRowCleared(1);
    DocRowCleared(3);
  }

  /** The row below a spanning row of the example loses its only cell. */
  lemma DocRowCleared(rb: nat)
    requires rb == 1 || rb == 3
    ensures NormalizeBody(DocBody())[rb].cells == []
  {
    var b := DocBody();
    assert Covers(b, rb - 1, rb, 0);
    RowCleared(b, rb);
  }

  lemma DocRowsKept()
    ensures NormalizeBody(DocBody())[0] == DocBody()[0] && NormalizeBody(DocBody())[2] == DocBody()[2]
  {
    RowUntouched(DocBody(), 0);
    DocRowTwoKept();
  }

  lemma DocRowTwoKept()
    ensures NormalizeBody(DocBody())[2] == DocBody()[2]
  {
    var b := DocBody();
    forall k | 0 <= k < |b[2].cells| ensures !Absorbed(b, 2, k) {
      forall ra: nat | ra < 2 ensures !Covers(b, ra, 2, k) {
      }
    }
    RowUntouched(b, 2);
  }

  /** What the documentation intends for the same example, "skip writing the spanned
      cell": positions are counted by column, so the cell under a row span is the one
      the author left out, and every written cell stays. The editor's column-aware
      mask (`markSpans`) does exactly that on two columns. */
  lemma DocExampleKeptByColumns()
    ensures MarkSpans.NormalizedRows(DocBody(), 2) == DocBody()
  {
    var b := DocBody();
    var occ := MarkSpans.Occupied(b, 2);
    DocOccupied();
    assert occ == {(1, 0), (3, 0)};
    var out := MarkSpans.NormalizedRows(b, 2);
    forall r | 0 <= r < 4 ensures out[r] == b[r] {
      assert MarkSpans.FreeUpTo(occ, r, 2) == |b[r].cells|;
    }
  }

  /** The positions the example's row spans cover, column by column. */
  lemma DocOccupied()
    ensures MarkSpans.Occupied(DocBody(), 2) == {(1, 0), (3, 0)}
  {
    var b := DocBody();
    SpanBelow(0, 0);
    SpanBelow(2, 0);
    NoSpan(0, 1);
    NoSpan(1, 1);
    NoSpan(2, 1);
    NoSpan(3, 1);
    assert b[..0] == [] && b[..1][..0] == [];
    assert b[..2][..1] == b[..1] && b[..3][..2] == b[..2] && b[..4] == b && b[..3] == b[..4][..3];
    assert MarkSpans.Occupied(b[..1], 2) == {(1, 0)};
    assert MarkSpans.Occupied(b[..2], 2) == {(1, 0)};
    assert MarkSpans.Occupied(b[..3], 2) == {(1, 0), (3, 0)};
  }

  lemma SpanBelow(r: int, c: int)
    ensures MarkSpans.Covered(r, c, 2, 1) == {(r + 1, c)}
  {
    forall p ensures p in MarkSpans.Covered(r, c, 2, 1) <==> p == (r + 1, c) {
      MarkSpans.CoveredMembers(r, c, 2, 1, p);
    }
  }

  lemma NoSpan(r: int, c: int)
    ensures MarkSpans.Covered(r, c, 1, 1) == {}
  {
    forall p ensures p !in MarkSpans.Covered(r, c, 1, 1) {
      MarkSpans.CoveredMembers(r, c, 1, 1, p);
    }
  }

  function TwoRows(): seq<Row> {
    [Row(1, [TextOf(2, "A", Some(SpanNum(2))), TextOf(3, "X", None)]),
     Row(4, [TextOf(5, "Y", None), TextOf(6, "Z", None)])]
  }

  /** Normalising twice removes more: `[A{rowSpan=2}, X] / [Y, Z]` becomes
      `[A, X] / [Z]` and then `[A, X] / []`. */
  lemma NotIdempotent()
    ensures NormalizeBody(TwoRows())[1].cells == [TextOf(6, "Z", None)]
    ensures NormalizeBody(NormalizeBody(TwoRows()))[1].cells == []
  {
    var b := TwoRows();
    assert Covers(b, 0, 1, 0);
    assert !Absorbed(b, 1, 1) by {
      forall ra: nat | ra < 1 ensures !Covers(b, ra, 1, 1) {
      }
    }
    var f := Flagged(b, 1);
    assert f == [TextOf(5, "Y", None).(removed := true), TextOf(6, "Z", None)];
    var n := NormalizeBody(b);
    assert n[1].cells == [TextOf(6, "Z", None)];
    RowUntouched(b, 0);
    assert Covers(n, 0, 1, 0);
    RowCleared(n, 1);
  }
}
