/** The document edits of the visual table editor: each `setTable` updater takes the
    previous table and returns the next one. Fresh uids are drawn from a counter
    `next`; an edit that creates `n` rows or cells uses `next`, `next + 1`, … */
module Editor {
  import opened Wrappers
  import opened Types

  /** The part of the table an edit is aimed at. */
  datatype EditSection = InHeader | InBody | InFooter

  /** `prev.cols + 1` on a JavaScript number. */
  function PlusOne(v: NumberValue): NumberValue {
    match v
    case Int(n) => Int(n + 1)
    case NaN => NaN
  }

  /** `prev.cols - 1` on a JavaScript number. */
  function MinusOne(v: NumberValue): NumberValue {
    match v
    case Int(n) => Int(n - 1)
    case NaN => NaN
  }

  /** `Array.from({ length: n }, () => ({ uid, type: 'text', value: '' }))`, uids
      drawn from `first` on. */
  function EmptyCells(first: Uid, n: nat): (r: seq<Cell>)
    ensures |r| == n
    ensures forall k :: 0 <= k < n ==> r[k] == EmptyTextCell(first + k)
  {
    seq(n, k requires 0 <= k < n => EmptyTextCell(first + k))
  }

  // ---------------------------------------------------------------- updateCell

  /** `cells.map(c => c.uid === cellUid ? updater(c) : c)`. */
  function MapCells(cells: seq<Cell>, cellUid: Uid, f: Cell -> Cell): (r: seq<Cell>)
    ensures |r| == |cells|
  {
    seq(|cells|, k requires 0 <= k < |cells| => if cells[k].uid == cellUid then f(cells[k]) else cells[k])
  }

  /** `updateCell`: the updater is applied to the cells with the uid, in the header,
      in the body rows with the row uid, or in the footer. */
  function UpdateCell(t: Table, cellUid: Uid, rowUid: Uid, section: EditSection, f: Cell -> Cell): Table {
    match section
    case InHeader =>
      if t.header.Some? then t.(header := Some(t.header.value.(cells := MapCells(t.header.value.cells, cellUid, f))))
      else t
    case InBody =>
      t.(body := seq(|t.body|, i requires 0 <= i < |t.body| =>
                       if t.body[i].uid == rowUid then t.body[i].(cells := MapCells(t.body[i].cells, cellUid, f))
                       else t.body[i]))
    case InFooter =>
      if t.footer.Some? then t.(footer := Some(t.footer.value.(cells := MapCells(t.footer.value.cells, cellUid, f))))
      else t
  }

  /** An edit of a body cell touches only the cells with that uid in the rows with
      that uid: every other cell, every row uid, the header, the footer and the
      configuration stay as they were. */
  lemma UpdateBodyCellOnly(t: Table, cellUid: Uid, rowUid: Uid, f: Cell -> Cell)
    ensures var r := UpdateCell(t, cellUid, rowUid, InBody, f);
            r.name == t.name && r.cols == t.cols && r.showSerialIndex == t.showSerialIndex
            && r.header == t.header && r.footer == t.footer && |r.body| == |t.body|
    ensures var r := UpdateCell(t, cellUid, rowUid, InBody, f);
            forall i :: 0 <= i < |t.body| ==>
              r.body[i].uid == t.body[i].uid && |r.body[i].cells| == |t.body[i].cells|
    ensures var r := UpdateCell(t, cellUid, rowUid, InBody, f);
            forall i, k :: 0 <= i < |t.body| && 0 <= k < |t.body[i].cells| ==>
              r.body[i].cells[k]
              == if t.body[i].uid == rowUid && t.body[i].cells[k].uid == cellUid
                 then f(t.body[i].cells[k]) else t.body[i].cells[k]
  {
  }

  /** An edit of a header or footer cell touches only the cells with that uid in
      that row; the body is not touched, and a missing row stays missing. */
  lemma UpdateEdgeCellOnly(t: Table, cellUid: Uid, rowUid: Uid, section: EditSection, f: Cell -> Cell)
    requires section != InBody
    ensures var r := UpdateCell(t, cellUid, rowUid, section, f);
            r.body == t.body && r.cols == t.cols && r.name == t.name
            && (section == InHeader ==> r.footer == t.footer && r.header.Some? == t.header.Some?)
            && (section == InFooter ==> r.header == t.header && r.footer.Some? == t.footer.Some?)
    ensures var r := UpdateCell(t, cellUid, rowUid, section, f);
            var before := if section == InHeader then t.header else t.footer;
            var after := if section == InHeader then r.header else r.footer;
            before.Some? ==>
              after.value.uid == before.value.uid && |after.value.cells| == |before.value.cells|
              && forall k :: 0 <= k < |before.value.cells| ==>
                   after.value.cells[k]
                   == if before.value.cells[k].uid == cellUid then f(before.value.cells[k]) else before.value.cells[k]
  {
  }

  // ---------------------------------------------------------------- rows

  /** `handleAddRow`: a body row of `cols` empty text cells is appended. */
  function AddRow(t: Table, next: Uid): Table {
    t.(body := t.body + [Row(next, EmptyCells(next + 1, ColumnBound(t.cols)))])
  }

  /** Adding a row keeps every existing row and appends one row of exactly `cols`
      empty text cells with fresh uids. */
  lemma AddRowAppends(t: Table, next: Uid)
    ensures var r := AddRow(t, next);
            |r.body| == |t.body| + 1 && r.body[..|t.body|] == t.body
            && r.header == t.header && r.footer == t.footer && r.cols == t.cols
    ensures var row := AddRow(t, next).body[|t.body|];
            |row.cells| == ColumnBound(t.cols) && row.uid == next
            && forall k :: 0 <= k < |row.cells| ==>
                 View(row.cells[k]) == TextView("") && row.cells[k].uid == next + 1 + k
                 && SpanCount(row.cells[k].colSpan) == 1 && SpanCount(row.cells[k].rowSpan) == 1
  {
    var r := AddRow(t, next);
    assert r.body[..|t.body|] == t.body;
  }

  /** `body.filter(row => row.uid !== rowUid)`. */
  function WithoutRow(rows: seq<Row>, rowUid: Uid): (r: seq<Row>)
    ensures |r| <= |rows|
  {
    if rows == [] then []
    else (if rows[0].uid == rowUid then [] else [rows[0]]) + WithoutRow(rows[1..], rowUid)
  }

  /** `handleDeleteRow`. */
  function DeleteRow(t: Table, rowUid: Uid): Table {
    t.(body := WithoutRow(t.body, rowUid))
  }

  /** Deleting a row leaves exactly the rows with another uid: no row with the uid is
      left, and every other row stays (in their order, see `DeleteRowKeepsOrder`). */
  lemma {:induction false} DeleteRowFilters(rows: seq<Row>, rowUid: Uid)
    ensures forall row :: row in WithoutRow(rows, rowUid) <==> row in rows && row.uid != rowUid
    ensures (forall k :: 0 <= k < |rows| ==> rows[k].uid != rowUid) ==> WithoutRow(rows, rowUid) == rows
    decreases |rows|
  {
    if rows != [] {
      DeleteRowFilters(rows[1..], rowUid);
      assert rows == [rows[0]] + rows[1..];
    }
  }

  /** `handleDeleteRow` on the table: the body holds exactly the rows with another
      uid, and the rest of the table is untouched. */
  lemma DeleteRowEffect(t: Table, rowUid: Uid)
    ensures DeleteRow(t, rowUid).(body := t.body) == t
    ensures forall row :: row in DeleteRow(t, rowUid).body <==> row in t.body && row.uid != rowUid
  {
    DeleteRowFilters(t.body, rowUid);
  }

  /** Deleting rows keeps the order of the remaining rows: deleting from a
      concatenation deletes from each part. */
  lemma {:induction false} DeleteRowKeepsOrder(a: seq<Row>, b: seq<Row>, rowUid: Uid)
    ensures WithoutRow(a + b, rowUid) == WithoutRow(a, rowUid) + WithoutRow(b, rowUid)
    decreases |a|
  {
    if a != [] {
      assert (a + b)[0] == a[0];
      assert (a + b)[1..] == a[1..] + b;
      DeleteRowKeepsOrder(a[1..], b, rowUid);
    } else {
      assert a + b == b;
    }
  }

  // ---------------------------------------------------------------- columns

  /** `[...row.cells, { uid, type: 'text', value: '' }]`. */
  function WithEmptyCell(row: Row, uid: Uid): Row {
    row.(cells := row.cells + [EmptyTextCell(uid)])
  }

  /** `handleAddColumn`: `cols + 1`, and one empty text cell at the end of the header,
      of every body row and of the footer. The header's cell draws `next`, body row
      `i` draws `next + 1 + i`, the footer's draws `next + 1 + |body|`. */
  function AddColumn(t: Table, next: Uid): Table {
    t.(cols := PlusOne(t.cols),
       header := if t.header.Some? then Some(WithEmptyCell(t.header.value, next)) else None,
       body := seq(|t.body|, i requires 0 <= i < |t.body| => WithEmptyCell(t.body[i], next + 1 + i)),
       footer := if t.footer.Some? then Some(WithEmptyCell(t.footer.value, next + 1 + |t.body|)) else None)
  }

  /** `after` is `before` with one empty text cell at its end: same uid, the earlier
      cells kept in place. */
  predicate ExtendedByEmptyCell(before: Row, after: Row) {
    && after.uid == before.uid
    && |after.cells| == |before.cells| + 1
    && after.cells[..|before.cells|] == before.cells
    && View(after.cells[|before.cells|]) == TextView("")
  }

  /** Appending an empty text cell is such an extension. */
  lemma WithEmptyCellExtends(row: Row, uid: Uid)
    ensures ExtendedByEmptyCell(row, WithEmptyCell(row, uid))
  {
    assert WithEmptyCell(row, uid).cells[..|row.cells|] == row.cells;
  }

  /** Adding a column lengthens every present row, header, body rows and footer, by
      one empty text cell at its end, keeps the earlier cells, counts one more
      column and changes nothing else. */
  lemma AddColumnExtendsEveryRow(t: Table, next: Uid)
    ensures var r := AddColumn(t, next);
            r.cols == PlusOne(t.cols) && ColumnBound(r.cols) >= ColumnBound(t.cols)
            && r.(cols := t.cols, header := t.header, body := t.body, footer := t.footer) == t
    ensures var r := AddColumn(t, next);
            |r.body| == |t.body| && forall i :: 0 <= i < |t.body| ==> ExtendedByEmptyCell(t.body[i], r.body[i])
    ensures var r := AddColumn(t, next);
            r.header.Some? == t.header.Some? && (t.header.Some? ==> ExtendedByEmptyCell(t.header.value, r.header.value))
    ensures var r := AddColumn(t, next);
            r.footer.Some? == t.footer.Some? && (t.footer.Some? ==> ExtendedByEmptyCell(t.footer.value, r.footer.value))
  {
    var r := AddColumn(t, next);
    forall i | 0 <= i < |t.body|
      ensures ExtendedByEmptyCell(t.body[i], r.body[i])
    {
      WithEmptyCellExtends(t.body[i], next + 1 + i);
    }
    if t.header.Some? {
      WithEmptyCellExtends(t.header.value, next);
    }
    if t.footer.Some? {
      WithEmptyCellExtends(t.footer.value, next + 1 + |t.body|);
    }
  }

  /** `cells.filter((_, i) => i !== colIndex)`. */
  function WithoutIndex(cells: seq<Cell>, colIndex: int): (r: seq<Cell>)
    ensures 0 <= colIndex < |cells| ==> |r| == |cells| - 1
    ensures !(0 <= colIndex < |cells|) ==> r == cells
  {
    if 0 <= colIndex < |cells| then cells[..colIndex] + cells[colIndex + 1..] else cells
  }

  /** `prev.cols <= 1`; a NaN count is not. */
  predicate AtMostOneColumn(cols: NumberValue) {
    cols.Int? && cols.value <= 1
  }

  /** `handleDeleteColumn`. */
  function DeleteColumn(t: Table, colIndex: int): Table {
    if AtMostOneColumn(t.cols) then t
    else
      t.(cols := MinusOne(t.cols),
         header := if t.header.Some? then Some(t.header.value.(cells := WithoutIndex(t.header.value.cells, colIndex))) else None,
         body := seq(|t.body|, i requires 0 <= i < |t.body| => t.body[i].(cells := WithoutIndex(t.body[i].cells, colIndex))),
         footer := if t.footer.Some? then Some(t.footer.value.(cells := WithoutIndex(t.footer.value.cells, colIndex))) else None)
  }

  /** `after` is the row `before` without its cell at `colIndex`, if it has one: the
      same uid, one cell fewer, and every other cell in its order. */
  predicate LosesIndex(before: Row, after: Row, colIndex: int) {
    && after.uid == before.uid
    && |after.cells| == (if 0 <= colIndex < |before.cells| then |before.cells| - 1 else |before.cells|)
    && forall k :: 0 <= k < |before.cells| && k != colIndex ==>
         before.cells[k] == after.cells[if 0 <= colIndex < k then k - 1 else k]
  }

  /** Filtering out an index is such a loss. */
  lemma WithoutIndexLoses(row: Row, colIndex: int)
    ensures LosesIndex(row, row.(cells := WithoutIndex(row.cells, colIndex)), colIndex)
  {
    var cells := WithoutIndex(row.cells, colIndex);
    forall k | 0 <= k < |row.cells| && k != colIndex
      ensures row.cells[k] == cells[if 0 <= colIndex < k then k - 1 else k]
    {
      if 0 <= colIndex < |row.cells| {
        if k < colIndex {
          assert cells[k] == row.cells[..colIndex][k];
        } else {
          assert cells[k - 1] == row.cells[colIndex + 1..][k - 1 - colIndex];
        }
      }
    }
  }

  /** Deleting a column does nothing with one column or fewer; otherwise it counts one
      column less and every present row, header, body rows and footer, loses the
      cell at that index, if it has one, keeping the cells before and after it in
      order; nothing else changes. */
  lemma DeleteColumnRemovesIndex(t: Table, colIndex: int)
    ensures AtMostOneColumn(t.cols) ==> DeleteColumn(t, colIndex) == t
    ensures !AtMostOneColumn(t.cols) ==>
              var r := DeleteColumn(t, colIndex);
              r.cols == MinusOne(t.cols)
              && r.(cols := t.cols, header := t.header, body := t.body, footer := t.footer) == t
    ensures !AtMostOneColumn(t.cols) ==>
              var r := DeleteColumn(t, colIndex);
              |r.body| == |t.body| && forall i :: 0 <= i < |t.body| ==> LosesIndex(t.body[i], r.body[i], colIndex)
    ensures !AtMostOneColumn(t.cols) ==>
              var r := DeleteColumn(t, colIndex);
              r.header.Some? == t.header.Some? && (t.header.Some? ==> LosesIndex(t.header.value, r.header.value, colIndex))
    ensures !AtMostOneColumn(t.cols) ==>
              var r := DeleteColumn(t, colIndex);
              r.footer.Some? == t.footer.Some? && (t.footer.Some? ==> LosesIndex(t.footer.value, r.footer.value, colIndex))
  {
    if !AtMostOneColumn(t.cols) {
      var r := DeleteColumn(t, colIndex);
      forall i | 0 <= i < |t.body| ensures LosesIndex(t.body[i], r.body[i], colIndex) {
        WithoutIndexLoses(t.body[i], colIndex);
      }
      if t.header.Some? {
        WithoutIndexLoses(t.header.value, colIndex);
      }
      if t.footer.Some? {
        WithoutIndexLoses(t.footer.value, colIndex);
      }
    }
  }

  // ---------------------------------------------------------------- cells

  /** `cells.filter(c => c.uid !== cellUid)`. */
  function WithoutCell(cells: seq<Cell>, cellUid: Uid): (r: seq<Cell>)
    ensures |r| <= |cells|
  {
    if cells == [] then []
    else (if cells[0].uid == cellUid then [] else [cells[0]]) + WithoutCell(cells[1..], cellUid)
  }

  /** The header or footer after deleting a cell: gone when no cell is left. */
  function EdgeWithoutCell(row: Option<Row>, cellUid: Uid): Option<Row> {
    if row.None? then None
    else
      var cells := WithoutCell(row.value.cells, cellUid);
      if |cells| == 0 then None else Some(row.value.(cells := cells))
  }

  /** `handleDeleteCell`. */
  function DeleteCell(t: Table, cellUid: Uid, rowUid: Uid, section: EditSection): Table {
    match section
    case InHeader => t.(header := EdgeWithoutCell(t.header, cellUid))
    case InBody =>
      t.(body := seq(|t.body|, i requires 0 <= i < |t.body| =>
                       if t.body[i].uid == rowUid then t.body[i].(cells := WithoutCell(t.body[i].cells, cellUid))
                       else t.body[i]))
    case InFooter => t.(footer := EdgeWithoutCell(t.footer, cellUid))
  }

  /** The cells left after deleting one are the others, in order. */
  lemma {:induction false} WithoutCellFilters(cells: seq<Cell>, cellUid: Uid)
    ensures forall c :: c in WithoutCell(cells, cellUid) <==> c in cells && c.uid != cellUid
    decreases |cells|
  {
    if cells != [] {
      WithoutCellFilters(cells[1..], cellUid);
      assert cells == [cells[0]] + cells[1..];
    }
  }

  /** The filter keeps order: the cells left from `a + b` are those left from `a`
      followed by those left from `b`. */
  lemma {:induction false} WithoutCellKeepsOrder(a: seq<Cell>, b: seq<Cell>, cellUid: Uid)
    ensures WithoutCell(a + b, cellUid) == WithoutCell(a, cellUid) + WithoutCell(b, cellUid)
    decreases |a|
  {
    if a != [] {
      assert (a + b)[0] == a[0];
      assert (a + b)[1..] == a[1..] + b;
      WithoutCellKeepsOrder(a[1..], b, cellUid);
    } else {
      assert a + b == b;
    }
  }

  /** A header or footer after deleting a cell: present exactly when another cell
      is left, and then the same row holding the other cells, filtered in order. */
  lemma EdgeWithoutCellEffect(row: Option<Row>, cellUid: Uid)
    ensures var e := EdgeWithoutCell(row, cellUid);
            e.Some? <==> row.Some? && exists c :: c in row.value.cells && c.uid != cellUid
    ensures var e := EdgeWithoutCell(row, cellUid);
            e.Some? ==> e.value.uid == row.value.uid && e.value.cells == WithoutCell(row.value.cells, cellUid)
                        && forall c :: c in e.value.cells <==> c in row.value.cells && c.uid != cellUid
  {
    if row.Some? {
      var cells := WithoutCell(row.value.cells, cellUid);
      WithoutCellFilters(row.value.cells, cellUid);
      if |cells| == 0 {
        forall c | c in row.value.cells ensures c.uid == cellUid {
          assert c !in cells;
        }
      } else {
        assert cells[0] in cells;
      }
    }
  }

  /** Deleting a cell removes it from its row and nothing else: the other cells of
      that row stay in order (`WithoutCell`, see `WithoutCellKeepsOrder`); body rows
      stay even when emptied, while a header or footer left with no cell is removed. */
  lemma DeleteCellEffect(t: Table, cellUid: Uid, rowUid: Uid, section: EditSection)
    ensures var r := DeleteCell(t, cellUid, rowUid, section);
            |r.body| == |t.body| && r.cols == t.cols && r.name == t.name && r.showSerialIndex == t.showSerialIndex
    ensures var r := DeleteCell(t, cellUid, rowUid, section);
            section == InBody ==>
              r.header == t.header && r.footer == t.footer
              && forall i :: 0 <= i < |t.body| ==>
                   r.body[i].uid == t.body[i].uid
                   && r.body[i].cells == (if t.body[i].uid == rowUid then WithoutCell(t.body[i].cells, cellUid) else t.body[i].cells)
                   && (forall c :: c in r.body[i].cells <==>
                         c in t.body[i].cells && (t.body[i].uid != rowUid || c.uid != cellUid))
    ensures var r := DeleteCell(t, cellUid, rowUid, section);
            section == InHeader ==>
              r.body == t.body && r.footer == t.footer
              && (r.header.Some? <==> t.header.Some? && exists c :: c in t.header.value.cells && c.uid != cellUid)
              && (r.header.Some? ==> r.header.value.uid == t.header.value.uid
                                     && r.header.value.cells == WithoutCell(t.header.value.cells, cellUid)
                                     && forall c :: c in r.header.value.cells <==> c in t.header.value.cells && c.uid != cellUid)
    ensures var r := DeleteCell(t, cellUid, rowUid, section);
            section == InFooter ==>
              r.body == t.body && r.header == t.header
              && (r.footer.Some? <==> t.footer.Some? && exists c :: c in t.footer.value.cells && c.uid != cellUid)
              && (r.footer.Some? ==> r.footer.value.uid == t.footer.value.uid
                                     && r.footer.value.cells == WithoutCell(t.footer.value.cells, cellUid)
                                     && forall c :: c in r.footer.value.cells <==> c in t.footer.value.cells && c.uid != cellUid)
  {
    match section
    case InBody =>
      var r := DeleteCell(t, cellUid, rowUid, section);
      forall i | 0 <= i < |t.body| ensures forall c :: c in r.body[i].cells <==>
          c in t.body[i].cells && (t.body[i].uid != rowUid || c.uid != cellUid)
      {
        WithoutCellFilters(t.body[i].cells, cellUid);
      }
    case InHeader =>
      EdgeWithoutCellEffect(t.header, cellUid);
    case InFooter =>
      EdgeWithoutCellEffect(t.footer, cellUid);
  }

  // ---------------------------------------------------------------- toggles

  /** `handleToggleSerialIndex`. */
  function ToggleSerialIndex(t: Table): (r: Table)
    ensures r.showSerialIndex == !t.showSerialIndex
    ensures r.(showSerialIndex := t.showSerialIndex) == t
  {
    if t.showSerialIndex then t.(showSerialIndex := false) else t.(showSerialIndex := true)
  }

  /** A fresh row of `cols` empty text cells; the row draws `next`. */
  function FreshRow(cols: NumberValue, next: Uid): Row {
    Row(next, EmptyCells(next + 1, ColumnBound(cols)))
  }

  /** `handleToggleHeader`: remove the header, or add a fresh one. */
  function ToggleHeader(t: Table, next: Uid): (r: Table)
    ensures r.header.Some? <==> t.header.None?
    ensures r.(header := t.header) == t
    ensures r.header.Some? ==> |r.header.value.cells| == ColumnBound(t.cols)
  {
    if t.header.Some? then t.(header := None) else t.(header := Some(FreshRow(t.cols, next)))
  }

  /** `handleToggleFooter`: remove the footer, or add a fresh one. */
  function ToggleFooter(t: Table, next: Uid): (r: Table)
    ensures r.footer.Some? <==> t.footer.None?
    ensures r.(footer := t.footer) == t
    ensures r.footer.Some? ==> |r.footer.value.cells| == ColumnBound(t.cols)
  {
    if t.footer.Some? then t.(footer := None) else t.(footer := Some(FreshRow(t.cols, next)))
  }

  /** Toggling twice undoes a missing header, and turns a present header into a
      fresh empty one. */
  lemma ToggleHeaderTwice(t: Table, n1: Uid, n2: Uid)
    ensures t.header.None? ==> ToggleHeader(ToggleHeader(t, n1), n2) == t
    ensures t.header.Some? ==> ToggleHeader(ToggleHeader(t, n1), n2) == t.(header := Some(FreshRow(t.cols, n2)))
  {
  }

  /** Toggling the serial index twice gives the table back. */
  lemma ToggleSerialIndexTwice(t: Table)
    ensures ToggleSerialIndex(ToggleSerialIndex(t)) == t
  {
  }

  // ---------------------------------------------------------------- cell type

  datatype CellType = TextType | LinkType | ButtonType

  /** The shown text a type change carries over: a text cell's value, a link's or a
      button's text, "" for any other type. */
  function ShownText(c: Cell): string {
    if c.kind == "text" then Prop(c, "value")
    else if c.kind == "link" || c.kind == "button" then Prop(c, "text")
    else ""
  }

  /** The updater of `handleChangeCellType`: `{ ...cell, type, … }`, every other field
      kept. */
  function ChangeType(c: Cell, newType: CellType): Cell {
    match newType
    case TextType => c.(kind := "text", props := c.props["value" := ShownText(c)])
    case LinkType =>
      c.(kind := "link",
         props := c.props["text" := ShownText(c)]["href" := if c.kind == "link" then Prop(c, "href") else ""])
    case ButtonType =>
      c.(kind := "button",
         props := c.props["text" := ShownText(c)]["url" := if c.kind == "button" then Prop(c, "url") else ""])
  }

  /** `handleChangeCellType`: the type change applied through `updateCell`. */
  function ChangeCellType(t: Table, cellUid: Uid, rowUid: Uid, section: EditSection, newType: CellType): Table {
    UpdateCell(t, cellUid, rowUid, section, c => ChangeType(c, newType))
  }

  /** A type change keeps the cell's identity and layout, carries the shown text
      across, and keeps `href` (`url`) only when the cell already was a link (button). */
  lemma ChangeTypeEffect(c: Cell, newType: CellType)
    ensures var d := ChangeType(c, newType);
            d.uid == c.uid && d.colSpan == c.colSpan && d.rowSpan == c.rowSpan
            && d.textAlign == c.textAlign && d.removed == c.removed
    ensures var d := ChangeType(c, newType);
            newType == TextType ==> View(d) == TextView(ShownText(c))
    ensures var d := ChangeType(c, newType);
            newType == LinkType ==>
              View(d) == LinkView(ShownText(c), if c.kind == "link" then Prop(c, "href") else "", Prop(c, "newTab"))
    ensures var d := ChangeType(c, newType);
            newType == ButtonType ==>
              View(d) == ButtonView(ShownText(c), if c.kind == "button" then Prop(c, "url") else "",
                                    Prop(c, "action"), Prop(c, "targetId"), Prop(c, "variant"))
  {
  }

  /** Changing a cell to its own type changes nothing that the cell shows. */
  lemma ChangeToSameType(c: Cell, newType: CellType)
    requires c.kind == (match newType case TextType => "text" case LinkType => "link" case ButtonType => "button")
    ensures View(ChangeType(c, newType)) == View(c)
  {
  }

  /** The shown text survives any chain of type changes: text to link and back gives
      the text cell its value again. */
  lemma ShownTextSurvives(c: Cell, a: CellType, b: CellType)
    ensures ShownText(ChangeType(ChangeType(c, a), b)) == ShownText(c)
  {
  }
}
