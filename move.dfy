/** Moving a body row, and moving a logical column, in the visual table editor.
    Both copy the current arrays and `splice` them: one `splice` takes an element
    out, a second puts it back at the target index. A column move works on the
    logical columns of each row, where a cell spanning `n` columns occupies `n`
    consecutive positions, and then keeps the first occurrence of every cell uid. */
module Move {
  import opened Wrappers
  import opened Types

  // ---------------------------------------------------------------- splice

  /** The start index `Array.prototype.splice` uses for `start` on an array of
      length `len`: negative counts from the end, and both ends are clamped. */
  function SpliceStart(len: nat, start: int): (r: nat)
    ensures r <= len
    ensures 0 <= start <= len ==> r == start
  {
    if start < 0 then (if len + start < 0 then 0 else len + start)
    else if start > len then len
    else start
  }

  /** `splice(i, 1)` on a copy: the element at `i` taken out. */
  function Remove<T>(s: seq<T>, i: nat): (r: seq<T>)
    requires i < |s|
    ensures |r| == |s| - 1
  {
    s[..i] + s[i + 1..]
  }

  /** `splice(i, 0, x)` on a copy: `x` put in at `i`. */
  function Insert<T>(s: seq<T>, i: nat, x: T): (r: seq<T>)
    requires i <= |s|
    ensures |r| == |s| + 1 && r[i] == x
  {
    s[..i] + [x] + s[i..]
  }

  lemma RemoveMultiset<T>(s: seq<T>, i: nat)
    requires i < |s|
    ensures multiset(Remove(s, i)) + multiset{s[i]} == multiset(s)
  {
    assert s == s[..i] + [s[i]] + s[i + 1..];
  }

  lemma InsertMultiset<T>(s: seq<T>, i: nat, x: T)
    requires i <= |s|
    ensures multiset(Insert(s, i, x)) == multiset(s) + multiset{x}
  {
    assert s == s[..i] + s[i..];
  }

  /** Taking an element out and putting it back elsewhere permutes the sequence,
      puts the element at the target index, and keeps the others in their order. */
  lemma MovePermutes<T>(s: seq<T>, i: nat, j: nat)
    requires i < |s| && j < |s|
    ensures multiset(Insert(Remove(s, i), j, s[i])) == multiset(s)
    ensures Insert(Remove(s, i), j, s[i])[j] == s[i]
    ensures Remove(Insert(Remove(s, i), j, s[i]), j) == Remove(s, i)
  {
    var t := Remove(s, i);
    RemoveMultiset(s, i);
    InsertMultiset(t, j, s[i]);
    var u := Insert(t, j, s[i]);
    assert u[..j] == t[..j] && u[j + 1..] == t[j..];
    assert t == t[..j] + t[j..];
  }

  // ---------------------------------------------------------------- moving a row

  /** The body after `handleMoveRow`, or `None` when the first `splice` takes out
      nothing and the second one inserts `undefined` into the body. */
  function RowMoved(t: Table, fromIndex: int, toIndex: int): Option<Table> {
    if toIndex < 0 || toIndex >= |t.body| then Some(t)
    else
      var s := SpliceStart(|t.body|, fromIndex);
      if s == |t.body| then None
      else Some(t.(body := Insert(Remove(t.body, s), toIndex, t.body[s])))
  }

  /** `handleMoveRow` as the source runs it, on a copy of the body. */
  method MoveRow(t: Table, fromIndex: int, toIndex: int) returns (r: Option<Table>)
    ensures r == RowMoved(t, fromIndex, toIndex)
  {
    if toIndex < 0 || toIndex >= |t.body| {
      return Some(t);
    }
    var newBody := t.body;
    var s := SpliceStart(|newBody|, fromIndex);
    if s == |newBody| {
      return None;
    }
    var movedRow := newBody[s];
    newBody := newBody[..s] + newBody[s + 1..];
    var p := SpliceStart(|newBody|, toIndex);
    newBody := newBody[..p] + [movedRow] + newBody[p..];
    r := Some(t.(body := newBody));
  }

  /** A target outside the body changes nothing; otherwise, for a source index that
      names a row, the body is a permutation with the moved row at the target and
      the other rows in their order, and nothing else changes. */
  lemma MoveRowPermutes(t: Table, fromIndex: int, toIndex: int)
    ensures toIndex < 0 || toIndex >= |t.body| ==> RowMoved(t, fromIndex, toIndex) == Some(t)
    ensures 0 <= toIndex < |t.body| ==> (RowMoved(t, fromIndex, toIndex).None? <==> fromIndex >= |t.body|)
    ensures 0 <= fromIndex < |t.body| && 0 <= toIndex < |t.body| ==>
              var r := RowMoved(t, fromIndex, toIndex).value;
              multiset(r.body) == multiset(t.body) && r.body[toIndex] == t.body[fromIndex]
              && Remove(r.body, toIndex) == Remove(t.body, fromIndex)
              && r.(body := t.body) == t
  {
    if 0 <= fromIndex < |t.body| && 0 <= toIndex < |t.body| {
      MovePermutes(t.body, fromIndex, toIndex);
    }
  }

  // ---------------------------------------------------------------- logical columns

  /** `cell.colSpan || 1` as a loop bound. */
  function Span(c: Cell): nat {
    SpanCount(c.colSpan)
  }

  /** `colToCell`: for each cell, its index once per column it spans. */
  function ColToCell(cells: seq<Cell>): (r: seq<nat>)
    ensures forall k :: 0 <= k < |r| ==> r[k] < |cells|
  {
    if cells == [] then []
    else ColToCell(cells[..|cells| - 1]) + seq(Span(cells[|cells| - 1]), _ => |cells| - 1)
  }

  /** `logicalCells`: each cell once per column it spans. */
  function Logical(cells: seq<Cell>): (r: seq<Cell>)
    ensures |r| == |ColToCell(cells)|
    ensures forall k :: 0 <= k < |r| ==> r[k] == cells[ColToCell(cells)[k]]
  {
    if cells == [] then []
    else
      var init := cells[..|cells| - 1];
      assert forall k :: 0 <= k < |ColToCell(init)| ==> cells[ColToCell(init)[k]] == init[ColToCell(init)[k]];
      Logical(init) + seq(Span(cells[|cells| - 1]), _ => cells[|cells| - 1])
  }

  /** `a[i]` in JavaScript: `undefined` outside the array. */
  function At(s: seq<nat>, i: int): Option<nat> {
    if 0 <= i < |s| then Some(s[i]) else None
  }

  /** The unique cells in order: the loop over the logical cells with a `seen` set,
      pushing a cell the first time its uid comes up. */
  function FirstByUid(xs: seq<Cell>, seen: set<Uid>): seq<Cell>
    decreases |xs|
  {
    if xs == [] then []
    else if xs[0].uid in seen then FirstByUid(xs[1..], seen)
    else [xs[0]] + FirstByUid(xs[1..], seen + {xs[0].uid})
  }

  /** The cells of a row after moving logical column `fromIndex` to `toIndex`: nothing
      happens when `fromIndex` is no logical column of the row or both indices fall in
      the same cell; otherwise the logical cells are spliced and the unique cells kept. */
  function ColumnsMoved(row: Row, fromIndex: int, toIndex: int): Row {
    var cc := ColToCell(row.cells);
    if At(cc, fromIndex).None? || At(cc, fromIndex) == At(cc, toIndex) then row
    else
      var l := Logical(row.cells);
      row.(cells := FirstByUid(Insert(Remove(l, fromIndex), SpliceStart(|l| - 1, toIndex), l[fromIndex]), {}))
  }

  /** The first loop of `moveRowColumns`: push each cell's index once per column it
      spans. */
  method BuildColToCell(cells: seq<Cell>) returns (colToCell: seq<nat>)
    ensures colToCell == ColToCell(cells)
  {
    colToCell := [];
    for cellIdx := 0 to |cells|
      invariant colToCell == ColToCell(cells[..cellIdx])
    {
      for i := 0 to Span(cells[cellIdx])
        invariant colToCell == ColToCell(cells[..cellIdx]) + seq(i, _ => cellIdx)
      {
        colToCell := colToCell + [cellIdx];
      }
      assert cells[..cellIdx + 1][..cellIdx] == cells[..cellIdx];
    }
    assert cells[..|cells|] == cells;
  }

  /** The second loop of `moveRowColumns`: push each cell once per column it spans. */
  method BuildLogical(cells: seq<Cell>) returns (logicalCells: seq<Cell>)
    ensures logicalCells == Logical(cells)
  {
    logicalCells := [];
    for cellIdx := 0 to |cells|
      invariant logicalCells == Logical(cells[..cellIdx])
    {
      var cell := cells[cellIdx];
      for i := 0 to Span(cell)
        invariant logicalCells == Logical(cells[..cellIdx]) + seq(i, _ => cell)
      {
        logicalCells := logicalCells + [cell];
      }
      assert cells[..cellIdx + 1][..cellIdx] == cells[..cellIdx];
    }
    assert cells[..|cells|] == cells;
  }

  /** The last loop of `moveRowColumns`: keep a cell the first time its uid is seen. */
  method KeepFirstByUid(logicalCells: seq<Cell>) returns (finalCells: seq<Cell>)
    ensures finalCells == FirstByUid(logicalCells, {})
  {
    finalCells := [];
    var seen: set<Uid> := {};
    for i := 0 to |logicalCells|
      invariant finalCells + FirstByUid(logicalCells[i..], seen) == FirstByUid(logicalCells, {})
    {
      var cell := logicalCells[i];
      assert logicalCells[i..][1..] == logicalCells[i + 1..];
      if cell.uid !in seen {
        finalCells := finalCells + [cell];
        seen := seen + {cell.uid};
      }
    }
  }

  /** `moveRowColumns` as the source runs it, on the corrected guard: both lists are
      built by pushing, the logical cells are spliced, and the unique cells are
      collected with a `seen` set. */
  method MoveRowColumns(row: Row, fromIndex: int, toIndex: int) returns (r: Row)
    ensures r == ColumnsMoved(row, fromIndex, toIndex)
  {
    var colToCell := BuildColToCell(row.cells);
    var fromCellIdx := At(colToCell, fromIndex);
    var toCellIdx := At(colToCell, toIndex);
    if fromCellIdx.None? || fromCellIdx == toCellIdx {
      return row;
    }
    var logicalCells := BuildLogical(row.cells);
    var targetCell := logicalCells[fromIndex];
    logicalCells := logicalCells[..fromIndex] + logicalCells[fromIndex + 1..];
    var p := SpliceStart(|logicalCells|, toIndex);
    logicalCells := logicalCells[..p] + [targetCell] + logicalCells[p..];
    var finalCells := KeepFirstByUid(logicalCells);
    r := row.(cells := finalCells);
  }

  /** `handleMoveColumn` with the corrected row move: a target outside `[0, cols)`
      changes nothing (a NaN count passes the guard); otherwise every present row is
      moved. */
  function MoveColumn(t: Table, fromIndex: int, toIndex: int): (r: Table)
    ensures r.(header := t.header, body := t.body, footer := t.footer) == t
    ensures r.header.Some? == t.header.Some? && r.footer.Some? == t.footer.Some?
    ensures |r.body| == |t.body|
  {
    if toIndex < 0 || (t.cols.Int? && toIndex >= t.cols.value) then t
    else
      t.(header := if t.header.Some? then Some(ColumnsMoved(t.header.value, fromIndex, toIndex)) else None,
         body := seq(|t.body|, i requires 0 <= i < |t.body| => ColumnsMoved(t.body[i], fromIndex, toIndex)),
         footer := if t.footer.Some? then Some(ColumnsMoved(t.footer.value, fromIndex, toIndex)) else None)
  }

  /** `handleMoveColumn`'s updater: a target outside `[0, cols)` changes nothing, and
      a NaN count lets every target through; otherwise the header, every body row
      and the footer are each moved on their own, present sections stay present,
      and name, column count and the serial switch are kept. */
  lemma MoveColumnEffect(t: Table, fromIndex: int, toIndex: int)
    ensures toIndex < 0 || (t.cols.Int? && toIndex >= t.cols.value) ==> MoveColumn(t, fromIndex, toIndex) == t
    ensures 0 <= toIndex && (t.cols.NaN? || toIndex < t.cols.value) ==>
              var r := MoveColumn(t, fromIndex, toIndex);
              && r.(header := t.header, body := t.body, footer := t.footer) == t
              && r.header.Some? == t.header.Some?
              && (t.header.Some? ==> r.header.value == ColumnsMoved(t.header.value, fromIndex, toIndex))
              && |r.body| == |t.body|
              && (forall i :: 0 <= i < |t.body| ==> r.body[i] == ColumnsMoved(t.body[i], fromIndex, toIndex))
              && r.footer.Some? == t.footer.Some?
              && (t.footer.Some? ==> r.footer.value == ColumnsMoved(t.footer.value, fromIndex, toIndex))
  {
  }

  /** A row is left as it is when `fromIndex` is no logical column of it, or when
      both indices fall in the same cell. */
  lemma SameCellLeavesRow(row: Row, fromIndex: int, toIndex: int)
    requires 0 <= fromIndex < |ColToCell(row.cells)| ==>
               0 <= toIndex < |ColToCell(row.cells)| && ColToCell(row.cells)[fromIndex] == ColToCell(row.cells)[toIndex]
    ensures ColumnsMoved(row, fromIndex, toIndex) == row
  {
  }

  /** Every cell of the row spans exactly one column. */
  predicate SingleSpans(cells: seq<Cell>) {
    forall k :: 0 <= k < |cells| ==> Span(cells[k]) == 1
  }

  /** Moving column `fromIndex` to `toIndex` in a row of single-column cells with
      distinct uids takes the cell out and puts it in at the target: the moved cell
      lands at `toIndex`, and the other cells keep their order. */
  lemma MoveColumnPlacesCell(row: Row, fromIndex: nat, toIndex: nat)
    requires SingleSpans(row.cells) && DistinctUids(row.cells)
    requires fromIndex < |row.cells| && toIndex < |row.cells|
    ensures ColumnsMoved(row, fromIndex, toIndex).cells == Insert(Remove(row.cells, fromIndex), toIndex, row.cells[fromIndex])
    ensures ColumnsMoved(row, fromIndex, toIndex).cells[toIndex] == row.cells[fromIndex]
    ensures Remove(ColumnsMoved(row, fromIndex, toIndex).cells, toIndex) == Remove(row.cells, fromIndex)
    ensures ColumnsMoved(row, fromIndex, toIndex).uid == row.uid
  {
    SingleMovedCells(row, fromIndex, toIndex);
    MovePermutes(row.cells, fromIndex, toIndex);
  }

  /** The unfolding behind `MoveColumnPlacesCell`: with single-column cells the
      logical cells are the cells, and no uid is dropped. */
  lemma SingleMovedCells(row: Row, fromIndex: nat, toIndex: nat)
    requires SingleSpans(row.cells) && DistinctUids(row.cells)
    requires fromIndex < |row.cells| && toIndex < |row.cells|
    ensures ColumnsMoved(row, fromIndex, toIndex) == row.(cells := Insert(Remove(row.cells, fromIndex), toIndex, row.cells[fromIndex]))
  {
    SingleSpansColumns(row.cells);
    SingleSpansLogical(row.cells);
    if fromIndex == toIndex {
      MoveOntoItself(row, fromIndex);
      InsertRemoveSame(row.cells, fromIndex);
    } else {
      SingleMovedElsewhere(row, fromIndex, toIndex);
    }
  }

  /** Moving a column onto itself leaves the row as it is. */
  lemma MoveOntoItself(row: Row, i: int)
    ensures ColumnsMoved(row, i, i) == row
  {
  }

  /** Taking an element out and putting it back where it was gives the sequence back. */
  lemma InsertRemoveSame<T>(s: seq<T>, i: nat)
    requires i < |s|
    ensures Insert(Remove(s, i), i, s[i]) == s
  {
    assert s == s[..i] + [s[i]] + s[i + 1..];
  }

  /** Moving to another column splices the cells, and no uid is dropped. */
  lemma SingleMovedElsewhere(row: Row, fromIndex: nat, toIndex: nat)
    requires DistinctUids(row.cells)
    requires fromIndex < |row.cells| && toIndex < |row.cells| && fromIndex != toIndex
    requires ColToCell(row.cells) == seq(|row.cells|, k => k)
    requires Logical(row.cells) == row.cells
    ensures ColumnsMoved(row, fromIndex, toIndex) == row.(cells := Insert(Remove(row.cells, fromIndex), toIndex, row.cells[fromIndex]))
  {
    var cells := row.cells;
    var moved := Insert(Remove(cells, fromIndex), toIndex, cells[fromIndex]);
    assert SpliceStart(|cells| - 1, toIndex) == toIndex;
    MovedKeepsDistinct(cells, fromIndex, toIndex);
    FirstByUidOfDistinct(moved, {});
  }

  /** A prefix of single-column cells is single-column too. */
  lemma SingleSpansInit(cells: seq<Cell>)
    requires SingleSpans(cells) && cells != []
    ensures SingleSpans(cells[..|cells| - 1])
  {
    var init := cells[..|cells| - 1];
    forall k | 0 <= k < |init| ensures Span(init[k]) == 1 {
      assert init[k] == cells[k];
    }
  }

  /** With single-column cells, logical column `k` belongs to cell `k`. */
  lemma {:induction false} SingleSpansColumns(cells: seq<Cell>)
    requires SingleSpans(cells)
    ensures ColToCell(cells) == seq(|cells|, k => k)
    decreases |cells|
  {
    if cells != [] {
      var n := |cells|;
      SingleSpansInit(cells);
      SingleSpansColumns(cells[..n - 1]);
      assert Span(cells[n - 1]) == 1;
      assert seq(Span(cells[n - 1]), _ => n - 1) == [n - 1];
      assert seq(n - 1, k => k) + [n - 1] == seq(n, k => k);
    }
  }

  /** When logical column `k` belongs to cell `k`, the logical cells are the cells. */
  lemma SingleSpansLogical(cells: seq<Cell>)
    requires ColToCell(cells) == seq(|cells|, k => k)
    ensures Logical(cells) == cells
  {
    var l := Logical(cells);
    forall k | 0 <= k < |l| ensures l[k] == cells[k] {
      assert ColToCell(cells)[k] == k;
    }
  }

  /** Keeping the first cell of each uid changes nothing when no uid repeats and
      none was seen before. */
  lemma {:induction false} FirstByUidOfDistinct(xs: seq<Cell>, seen: set<Uid>)
    requires DistinctUids(xs)
    requires forall k :: 0 <= k < |xs| ==> xs[k].uid !in seen
    ensures FirstByUid(xs, seen) == xs
    decreases |xs|
  {
    if xs != [] {
      forall k | 0 <= k < |xs[1..]| ensures xs[1..][k].uid !in seen + {xs[0].uid} {
        assert xs[1..][k] == xs[k + 1];
      }
      FirstByUidOfDistinct(xs[1..], seen + {xs[0].uid});
      assert xs == [xs[0]] + xs[1..];
    }
  }

  /** Taking a cell out and putting it back elsewhere keeps the uids distinct. */
  lemma MovedKeepsDistinct(cells: seq<Cell>, i: nat, j: nat)
    requires DistinctUids(cells) && i < |cells| && j < |cells|
    ensures DistinctUids(Insert(Remove(cells, i), j, cells[i]))
  {
    RemoveKeepsDistinct(cells, i);
    InsertKeepsDistinct(Remove(cells, i), j, cells[i]);
  }

  /** The rest of the cells keep distinct uids, none of them the taken cell's. */
  lemma RemoveKeepsDistinct(cells: seq<Cell>, i: nat)
    requires DistinctUids(cells) && i < |cells|
    ensures DistinctUids(Remove(cells, i))
    ensures forall k :: 0 <= k < |Remove(cells, i)| ==> Remove(cells, i)[k].uid != cells[i].uid
  {
    var rest := Remove(cells, i);
    assert forall k :: 0 <= k < |rest| ==> rest[k] == cells[if k < i then k else k + 1];
  }

  /** Putting in a cell with a new uid keeps the uids distinct. */
  lemma InsertKeepsDistinct(rest: seq<Cell>, j: nat, x: Cell)
    requires DistinctUids(rest) && j <= |rest|
    requires forall k :: 0 <= k < |rest| ==> rest[k].uid != x.uid
    ensures DistinctUids(Insert(rest, j, x))
  {
    var moved := Insert(rest, j, x);
    assert forall k :: 0 <= k < |moved| ==> moved[k] == if k < j then rest[k] else if k == j then x else rest[k - 1];
  }

  // ---------------------------------------------------------------- as written

  /** `moveRowColumns` as written: the guard compares `colToCell[fromIndex]` with
      `colToCell[toIndex]` only, so in a row with fewer logical columns than
      `fromIndex + 1` and a real cell at `toIndex` the first `splice` takes out
      nothing, the second inserts `undefined`, and reading `cell.uid` in the final
      loop throws. `None` is that TypeError. */
  function ColumnsMovedAsWritten(row: Row, fromIndex: int, toIndex: int): Option<Row> {
    var cc := ColToCell(row.cells);
    if At(cc, fromIndex) == At(cc, toIndex) then Some(row)
    else
      var l := Logical(row.cells);
      var s := SpliceStart(|l|, fromIndex);
      if s == |l| then None
      else Some(row.(cells := FirstByUid(Insert(Remove(l, s), SpliceStart(|l| - 1, toIndex), l[s]), {})))
  }

  /** `handleMoveColumn` as written: the whole update throws when one row does. */
  function MoveColumnAsWritten(t: Table, fromIndex: int, toIndex: int): Option<Table> {
    if toIndex < 0 || (t.cols.Int? && toIndex >= t.cols.value) then Some(t)
    else
      var h := if t.header.Some? then ColumnsMovedAsWritten(t.header.value, fromIndex, toIndex) else Some(Row(0, []));
      var f := if t.footer.Some? then ColumnsMovedAsWritten(t.footer.value, fromIndex, toIndex) else Some(Row(0, []));
      if h.None? || f.None? || exists i :: 0 <= i < |t.body| && ColumnsMovedAsWritten(t.body[i], fromIndex, toIndex).None? then None
      else Some(MoveColumn(t, fromIndex, toIndex))
  }

  /** The editor's "move left" on the second column of a two-column table whose body
      row holds a single cell: the guard lets `toIndex == 0` through and the update
      throws. */
  lemma ShortRowMoveThrows()
    ensures var row := Row(0, [EmptyTextCell(1)]);
            var t := Table("", Int(2), false, None, [row], None);
            ColumnsMovedAsWritten(row, 1, 0).None? && MoveColumnAsWritten(t, 1, 0).None?
  {
    var c := EmptyTextCell(1);
    var row := Row(0, [c]);
    assert [c][..0] == [];
    assert ColToCell([c]) == [0];
    assert Logical([c]) == [c];
    var t := Table("", Int(2), false, None, [row], None);
    assert ColumnsMovedAsWritten(t.body[0], 1, 0).None?;
  }

  /** The code as written throws exactly when `fromIndex` is past the row's logical
      columns while `toIndex` names one of them. */
  lemma AsWrittenThrowsIff(row: Row, fromIndex: int, toIndex: int)
    ensures ColumnsMovedAsWritten(row, fromIndex, toIndex).None?
            <==> fromIndex >= |ColToCell(row.cells)| && 0 <= toIndex < |ColToCell(row.cells)|
  {
  }

  /** Where the code as written does not throw and `fromIndex` is not negative, the
      corrected move gives the same row. */
  lemma CorrectedAgreesWithAsWritten(row: Row, fromIndex: int, toIndex: int)
    requires fromIndex >= 0 && ColumnsMovedAsWritten(row, fromIndex, toIndex).Some?
    ensures ColumnsMovedAsWritten(row, fromIndex, toIndex) == Some(ColumnsMoved(row, fromIndex, toIndex))
  {
  }

  // ---------------------------------------------------------------- permutation

  /** No two cells share a uid. */
  predicate DistinctUids(xs: seq<Cell>) {
    forall i, j :: 0 <= i < j < |xs| ==> xs[i].uid != xs[j].uid
  }

  /** Cells with the same uid are the same cell. */
  predicate UidDetermines(xs: seq<Cell>) {
    forall x, y :: x in xs && y in xs && x.uid == y.uid ==> x == y
  }

  /** Every cell of the row spans at least one column (a span that counts 0, such as
      a negative number, would drop the cell from the logical columns). */
  predicate AllSpansPositive(cells: seq<Cell>) {
    forall k :: 0 <= k < |cells| ==> Span(cells[k]) >= 1
  }

  lemma {:induction false} FirstByUidSound(xs: seq<Cell>, seen: set<Uid>)
    ensures forall x :: x in FirstByUid(xs, seen) ==> x in xs && x.uid !in seen
    ensures DistinctUids(FirstByUid(xs, seen))
    decreases |xs|
  {
    if xs != [] {
      if xs[0].uid in seen {
        FirstByUidSound(xs[1..], seen);
      } else {
        var rest := FirstByUid(xs[1..], seen + {xs[0].uid});
        FirstByUidSound(xs[1..], seen + {xs[0].uid});
        var r := [xs[0]] + rest;
        forall i, j | 0 <= i < j < |r| ensures r[i].uid != r[j].uid {
          if i == 0 {
            assert r[j] == rest[j - 1];
            assert rest[j - 1] in rest;
          } else {
            assert r[i] == rest[i - 1] && r[j] == rest[j - 1];
          }
        }
      }
    }
  }

  lemma {:induction false} FirstByUidComplete(xs: seq<Cell>, seen: set<Uid>, x: Cell)
    requires UidDetermines(xs) && x in xs && x.uid !in seen
    ensures x in FirstByUid(xs, seen)
    decreases |xs|
  {
    if xs[0] != x {
      assert x in xs[1..];
      assert UidDetermines(xs[1..]) by {
        forall a, b | a in xs[1..] && b in xs[1..] && a.uid == b.uid ensures a == b {
          assert a in xs && b in xs;
        }
      }
      if xs[0].uid in seen {
        FirstByUidComplete(xs[1..], seen, x);
      } else {
        assert xs[0] in xs;
        FirstByUidComplete(xs[1..], seen + {xs[0].uid}, x);
      }
    }
  }

  /** A cell is among the logical cells exactly when it spans a column. */
  lemma {:induction false} LogicalMembers(cells: seq<Cell>, x: Cell)
    ensures x in Logical(cells) <==> x in cells && exists k :: 0 <= k < |cells| && cells[k] == x && Span(x) >= 1
  {
    var l := Logical(cells);
    var cc := ColToCell(cells);
    if x in l {
      var m :| 0 <= m < |l| && l[m] == x;
      CellOfColumnSpans(cells, m);
    }
    if exists k :: 0 <= k < |cells| && cells[k] == x && Span(x) >= 1 {
      var k :| 0 <= k < |cells| && cells[k] == x && Span(x) >= 1;
      var m := FirstColumnOf(cells, k);
      assert l[m] == x;
    }
  }

  /** The cell of a logical column spans at least that column. */
  lemma {:induction false} CellOfColumnSpans(cells: seq<Cell>, m: nat)
    requires m < |ColToCell(cells)|
    ensures Span(cells[ColToCell(cells)[m]]) >= 1
    decreases |cells|
  {
    var init := cells[..|cells| - 1];
    if m < |ColToCell(init)| {
      CellOfColumnSpans(init, m);
      assert ColToCell(cells)[m] == ColToCell(init)[m];
    } else {
      assert ColToCell(cells)[m] == |cells| - 1;
    }
  }

  /** A cell that spans a column has a logical column of its own. */
  lemma {:induction false} FirstColumnOf(cells: seq<Cell>, k: nat) returns (m: nat)
    requires k < |cells| && Span(cells[k]) >= 1
    ensures m < |ColToCell(cells)| && ColToCell(cells)[m] == k
    decreases |cells|
  {
    var init := cells[..|cells| - 1];
    if k < |cells| - 1 {
      assert init[k] == cells[k];
      m := FirstColumnOf(init, k);
      assert ColToCell(cells)[m] == ColToCell(init)[m];
    } else {
      m := |ColToCell(init)|;
      assert ColToCell(cells)[m] == |cells| - 1;
    }
  }

  /** No element occurs twice. */
  ghost predicate NoDuplicates<T>(s: seq<T>) {
    forall i, j :: 0 <= i < j < |s| ==> s[i] != s[j]
  }

  /** In a sequence without duplicates every member occurs exactly once. */
  lemma {:induction false} OccursOnce<T>(s: seq<T>, x: T)
    requires NoDuplicates(s)
    ensures multiset(s)[x] == if x in s then 1 else 0
    decreases |s|
  {
    if s != [] {
      assert s == [s[0]] + s[1..];
      assert NoDuplicates(s[1..]) by {
        forall i, j | 0 <= i < j < |s[1..]| ensures s[1..][i] != s[1..][j] {
          assert s[1..][i] == s[i + 1] && s[1..][j] == s[j + 1];
        }
      }
      OccursOnce(s[1..], x);
      if x == s[0] {
        assert x !in s[1..];
      }
    }
  }

  /** Two sequences without duplicates and with the same members are permutations
      of each other. */
  lemma SameMembersPermutation<T>(a: seq<T>, b: seq<T>)
    requires NoDuplicates(a) && NoDuplicates(b)
    requires forall x :: x in a <==> x in b
    ensures multiset(a) == multiset(b)
  {
    forall x ensures multiset(a)[x] == multiset(b)[x] {
      OccursOnce(a, x);
      OccursOnce(b, x);
    }
  }

  /** The moved logical cells hold exactly the cells of the row. */
  lemma MovedMembers(row: Row, fromIndex: nat, p: nat)
    requires fromIndex < |Logical(row.cells)| && p < |Logical(row.cells)|
    requires AllSpansPositive(row.cells)
    ensures var l := Logical(row.cells);
            forall x :: x in Insert(Remove(l, fromIndex), p, l[fromIndex]) <==> x in row.cells
  {
    var l := Logical(row.cells);
    var moved := Insert(Remove(l, fromIndex), p, l[fromIndex]);
    MovePermutes(l, fromIndex, p);
    forall x ensures x in moved <==> x in row.cells {
      assert x in moved <==> x in multiset(moved);
      assert x in l <==> x in multiset(l);
      LogicalMembers(row.cells, x);
    }
  }

  /** Cells drawn from a row with distinct uids are determined by their uid. */
  lemma UidDeterminesMembers(cells: seq<Cell>, xs: seq<Cell>)
    requires DistinctUids(cells)
    requires forall x :: x in xs ==> x in cells
    ensures UidDetermines(xs)
  {
    forall x, y | x in xs && y in xs && x.uid == y.uid ensures x == y {
      var i :| 0 <= i < |cells| && cells[i] == x;
      var j :| 0 <= j < |cells| && cells[j] == y;
      assert !(i < j) && !(j < i);
    }
  }

  /** Distinct uids mean distinct cells. */
  lemma DistinctUidsNoDuplicates(xs: seq<Cell>)
    requires DistinctUids(xs)
    ensures NoDuplicates(xs)
  {
  }

  /** Keeping the first cell of each uid keeps every cell, once. */
  lemma FirstByUidMembers(xs: seq<Cell>)
    requires UidDetermines(xs)
    ensures forall x :: x in FirstByUid(xs, {}) <==> x in xs
    ensures NoDuplicates(FirstByUid(xs, {}))
  {
    FirstByUidSound(xs, {});
    forall x | x in xs ensures x in FirstByUid(xs, {}) {
      FirstByUidComplete(xs, {}, x);
    }
    DistinctUidsNoDuplicates(FirstByUid(xs, {}));
  }

  /** Keeping the first cell of each uid of a rearrangement of distinct-uid cells
      gives back a permutation of those cells. */
  lemma KeptCellsPermutation(cells: seq<Cell>, moved: seq<Cell>)
    requires DistinctUids(cells)
    requires forall x :: x in moved <==> x in cells
    ensures multiset(FirstByUid(moved, {})) == multiset(cells)
  {
    UidDeterminesMembers(cells, moved);
    FirstByUidMembers(moved);
    DistinctUidsNoDuplicates(cells);
    SameMembersPermutation(FirstByUid(moved, {}), cells);
  }

  /** Moving a column permutes the cells of a row whose cells have distinct uids and
      spans of at least one column. */
  lemma MoveColumnPermutesCells(row: Row, fromIndex: int, toIndex: int)
    requires DistinctUids(row.cells) && AllSpansPositive(row.cells)
    ensures multiset(ColumnsMoved(row, fromIndex, toIndex).cells) == multiset(row.cells)
  {
    var cc := ColToCell(row.cells);
    if !(At(cc, fromIndex).None? || At(cc, fromIndex) == At(cc, toIndex)) {
      var p := MovedCellsOf(row, fromIndex, toIndex);
      SplicedPermutes(row, fromIndex, p);
    }
  }

  /** The unfolding of a move that is not a no-op: the row's cells are the unique
      cells of the spliced logical cells, with the target clamped to `p`. */
  lemma MovedCellsOf(row: Row, fromIndex: int, toIndex: int) returns (p: nat)
    requires var cc := ColToCell(row.cells); !(At(cc, fromIndex).None? || At(cc, fromIndex) == At(cc, toIndex))
    ensures 0 <= fromIndex < |Logical(row.cells)| && p < |Logical(row.cells)|
    ensures var l := Logical(row.cells);
            ColumnsMoved(row, fromIndex, toIndex).cells == FirstByUid(Insert(Remove(l, fromIndex), p, l[fromIndex]), {})
  {
    p := SpliceStart(|Logical(row.cells)| - 1, toIndex);
  }

  /** Taking out the logical cell at `fromIndex` and inserting it at `p`, then keeping
      the unique cells, permutes the row's cells. */
  lemma SplicedPermutes(row: Row, fromIndex: nat, p: nat)
    requires DistinctUids(row.cells) && AllSpansPositive(row.cells)
    requires fromIndex < |Logical(row.cells)| && p < |Logical(row.cells)|
    ensures var l := Logical(row.cells);
            multiset(FirstByUid(Insert(Remove(l, fromIndex), p, l[fromIndex]), {})) == multiset(row.cells)
  {
    var l := Logical(row.cells);
    MovedMembers(row, fromIndex, p);
    KeptCellsPermutation(row.cells, Insert(Remove(l, fromIndex), p, l[fromIndex]));
  }
}
