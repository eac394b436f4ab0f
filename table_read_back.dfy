/** The text the serialiser writes for a table, read back by the parser: the
    configuration comes back as written, and every row comes back cell for cell
    (type, shown fields and spans above 1), provided the cells are writable, each
    row line is neither blank nor a comment, and no body cell spans more than one
    row. */
module TableReadBack {
  import opened Wrappers
  import opened Strings
  import opened StringFacts
  import opened Types
  import opened ParseCell
  import opened Normalize
  import opened NormalizeProperties
  import opened Stringify
  import opened BlockRoundTrip
  import opened CellReadBack
  import opened RowReadBack
  import opened ParseTable

  // ---------------------------------------------------------------- conditions

  /** A row the parser reads back from its line: writable cells, and a line that is
      neither blank nor padded nor a comment. */
  predicate WritableRow(cells: seq<Cell>) {
    && |cells| >= 1
    && (forall k :: 0 <= k < |cells| ==> Writable(cells[k]))
    && Solid(RowText(cells)) && RowText(cells)[0] != '#'
  }

  /** A header or footer the serialiser writes as a readable line, if it writes it at all. */
  predicate WritableEdge(r: Option<Row>) {
    HasCells(r) ==> WritableRow(r.value.cells)
  }

  /** A body row whose written cells form a readable line, none of them spanning rows. */
  predicate WritableBodyRow(row: Row) {
    var cells := Visible(row.cells);
    WritableRow(cells) && forall k :: 0 <= k < |cells| ==> SpanCount(cells[k].rowSpan) <= 1
  }

  /** A table whose text the parser reads back: among other things, its column count
      is NaN or a safe integer, which `${cols}` writes digit for digit. */
  predicate WritableTable(t: Table) {
    && IsTrimmed(t.name) && '\n' !in t.name
    && (t.cols.Int? ==> SafeInteger(t.cols.value))
    && WritableEdge(t.header) && WritableEdge(t.footer)
    && forall r :: 0 <= r < |t.body| ==> WritableBodyRow(t.body[r])
  }

  /** The cells a header or footer writes: none when it is missing. */
  function EdgeCells(r: Option<Row>): seq<Cell> {
    if HasCells(r) then r.value.cells else []
  }

  /** Parsed cells that read back, one for one, as the written ones. */
  predicate RowReadsBackAs(read: seq<Cell>, cells: seq<Cell>) {
    |read| == |cells| && forall k :: 0 <= k < |cells| ==> ReadsBackAs(read[k], cells[k])
  }

  // ---------------------------------------------------------------- the theorem

  /** A table read back from the text of `t`: its name, column count and serial-index
      flag, a header and footer whose cells read back as the written ones (no cells
      when none was written), and one body row per written row whose cells read back
      as the row's unflagged cells. */
  predicate TableOutcome(p: Table, t: Table) {
    && p.name == t.name && p.cols == t.cols && p.showSerialIndex == t.showSerialIndex
    && p.header.Some? && RowReadsBackAs(p.header.value.cells, EdgeCells(t.header))
    && p.footer.Some? && RowReadsBackAs(p.footer.value.cells, EdgeCells(t.footer))
    && |p.body| == |t.body|
    && forall r :: 0 <= r < |t.body| ==> RowReadsBackAs(p.body[r].cells, Visible(t.body[r].cells))
  }

  /** Parsing the text of a writable table reads the table back. */
  lemma TableReadsBack(t: Table, next: Uid)
    requires WritableTable(t)
    ensures TableOutcome(Parse(Stringify.Stringify(t), next), t)
  {
    TextNotEmpty(t);
    LinesSplit(t);
    CellOfReadsBackCells();
    LinesRead(CellOf, t, next);
    NormalizedOutcome(Run(CellOf, Start(next), Lines(t)).table, t);
  }

  /** The text of a writable table holds more than one line. */
  lemma TextNotEmpty(t: Table)
    requires WritableTable(t)
    ensures |Stringify.Stringify(t)| > 0
  {
    LinesSplit(t);
    assert |Split(Stringify.Stringify(t), '\n')| >= 2;
  }

  /** The normaliser keeps what the loop read from a writable table. */
  lemma NormalizedOutcome(tb: Table, t: Table)
    requires WritableTable(t) && TableOutcome(tb, t)
    ensures TableOutcome(NormalizeTable(tb), t)
  {
    BodyKept(tb.body, t.body);
  }

  /** A body read back from rows without row spans is left alone by the normaliser. */
  lemma BodyKept(body: seq<Row>, rows: seq<Row>)
    requires |body| == |rows|
    requires forall r :: 0 <= r < |rows| ==> WritableBodyRow(rows[r])
    requires forall r :: 0 <= r < |rows| ==> RowReadsBackAs(body[r].cells, Visible(rows[r].cells))
    ensures NormalizeBody(body) == body
  {
    forall rb, k | 0 <= rb < |body| && 0 <= k < |body[rb].cells|
      ensures SpanCount(body[rb].cells[k].rowSpan) <= 1 && !body[rb].cells[k].removed
    {
      var c := Visible(rows[rb].cells)[k];
      assert ReadsBackAs(body[rb].cells[k], c);
      assert SpanCount(c.rowSpan) <= 1;
    }
    NoRowSpanNoChange(body);
  }

  /** The loop over the lines of a writable table, with a cell parser that reads back
      writable cells. */
  lemma LinesRead(cell: CellParser, t: Table, next: Uid)
    requires ReadsBackCells(cell) && WritableTable(t)
    ensures TableOutcome(Run(cell, Start(next), Lines(t)).table, t)
  {
    var p, h, b, f := Preamble(t), EdgeBlock("[header]", t.header), BodyBlock(t.body), EdgeBlock("[footer]", t.footer);
    RunBlocks(cell, Start(next), p, h, b, f, ["#endtable"]);
    var s1 := Run(cell, Start(next), p);
    PreambleRead(cell, t, next);
    var s2 := Run(cell, s1, h);
    HeaderMarker();
    EdgeRead(cell, s1, "[header]", HeaderSection, t.header);
    var s3 := Run(cell, s2, b);
    BodyBlockRead(cell, s2, t.body);
    var s4 := Run(cell, s3, f);
    FooterMarker();
    EdgeRead(cell, s3, "[footer]", FooterSection, t.footer);
    EndRead(cell, s4);
    PhasesRead(t, next, s1, s2, s3, s4);
  }

  /** The four phases put together: the configuration from the preamble, the header,
      the body rows and the footer, each phase leaving the others' parts alone. */
  lemma PhasesRead(t: Table, next: Uid, s1: ParseState, s2: ParseState, s3: ParseState, s4: ParseState)
    requires s1 == Start(next).(table := InitialStructure(next).(name := t.name, cols := t.cols, showSerialIndex := t.showSerialIndex))
    requires EdgeOutcome(s1, s2, HeaderSection, t.header)
    requires BodyOutcome(s2, s3, t.body)
    requires EdgeOutcome(s3, s4, FooterSection, t.footer)
    ensures TableOutcome(s4.table, t)
  {
  }

  /** What a header or footer block does to the state: nothing when the block is not
      written; otherwise it enters the section and places there a row whose cells
      read back as the written ones. */
  ghost predicate EdgeOutcome(st: ParseState, e: ParseState, sec: Section, r: Option<Row>) {
    && (!HasCells(r) ==> e == st)
    && (HasCells(r) ==> e.section == sec && exists row :: e.table == Place(st.table, sec, row)
                                                   && RowReadsBackAs(row.cells, r.value.cells))
  }

  /** What the body block does to the state: one row appended per written row, read
      back as its unflagged cells, and nothing else changed. */
  predicate BodyOutcome(st: ParseState, e: ParseState, rows: seq<Row>) {
    && (rows == [] ==> e == st)
    && (rows != [] ==> RowsAppended(st.table, e, rows))
  }

  /** The body section entered, one row appended per written row, read back as its
      unflagged cells, and nothing else in the table changed. */
  predicate RowsAppended(tb: Table, e: ParseState, rows: seq<Row>) {
    && e.section == BodySection
    && e.table.(body := tb.body) == tb
    && |e.table.body| == |tb.body| + |rows|
    && e.table.body[..|tb.body|] == tb.body
    && forall r :: 0 <= r < |rows| ==> RowReadsBackAs(e.table.body[|tb.body| + r].cells, Visible(rows[r].cells))
  }

  // ---------------------------------------------------------------- the phases

  /** The start marker and the configuration lines set the name, the column count
      and the serial-index flag, and nothing else. */
  lemma PreambleRead(cell: CellParser, t: Table, next: Uid)
    requires IsTrimmed(t.name)
    ensures Run(cell, Start(next), Preamble(t))
         == Start(next).(table := InitialStructure(next).(name := t.name, cols := t.cols, showSerialIndex := t.showSerialIndex))
  {
    var st := Start(next);
    var l0, l1, l2, l3 := "#table", "name: " + t.name, "cols: " + ShowNumber(t.cols), "showSerialIndex: " + ShowBool(t.showSerialIndex);
    assert Preamble(t) == [l0] + [l1] + [l2] + [l3] + [""];
    RunAppend(cell, st, [l0] + [l1] + [l2] + [l3], [""]);
    RunAppend(cell, st, [l0] + [l1] + [l2], [l3]);
    RunAppend(cell, st, [l0] + [l1], [l2]);
    RunAppend(cell, st, [l0], [l1]);
    TableRun(cell, st);
    NameRun(cell, st, t.name);
    var st1 := st.(table := st.table.(name := t.name));
    ColsRun(cell, st1, t.cols);
    var st2 := st1.(table := st1.table.(cols := t.cols));
    SerialRun(cell, st2, t.showSerialIndex);
    BlankRun(cell, st2.(table := st2.table.(showSerialIndex := t.showSerialIndex)));
  }

  lemma TableRun(cell: CellParser, st: ParseState)
    ensures Run(cell, st, ["#table"]) == st
  {
    RunOne(cell, st, "#table");
    TableStep(cell, st);
  }

  lemma NameRun(cell: CellParser, st: ParseState, name: string)
    requires st.section == Config && IsTrimmed(name)
    ensures Run(cell, st, ["name: " + name]) == st.(table := st.table.(name := name))
  {
    RunOne(cell, st, "name: " + name);
    NameLineRead(cell, st, name);
  }

  lemma ColsRun(cell: CellParser, st: ParseState, cols: NumberValue)
    requires st.section == Config
    ensures Run(cell, st, ["cols: " + ShowNumber(cols)]) == st.(table := st.table.(cols := cols))
  {
    RunOne(cell, st, "cols: " + ShowNumber(cols));
    ColsLineRead(cell, st, cols);
  }

  lemma SerialRun(cell: CellParser, st: ParseState, b: bool)
    requires st.section == Config
    ensures Run(cell, st, ["showSerialIndex: " + ShowBool(b)]) == st.(table := st.table.(showSerialIndex := b))
  {
    RunOne(cell, st, "showSerialIndex: " + ShowBool(b));
    SerialLineRead(cell, st, b);
  }

  /** A header or footer block: the marker switches the section and the row line
      becomes that section's row; nothing when the block is not written. */
  lemma EdgeRead(cell: CellParser, st: ParseState, marker: string, sec: Section, r: Option<Row>)
    requires ReadsBackCells(cell) && WritableEdge(r)
    requires SectionMarker(marker, sec)
    ensures EdgeOutcome(st, Run(cell, st, EdgeBlock(marker, r)), sec, r)
  {
    if HasCells(r) {
      var cells := r.value.cells;
      assert EdgeBlock(marker, r) == [marker] + [RowText(cells)] + [""];
      EdgeWritten(cell, st, marker, sec, cells);
    }
  }

  /** A written header or footer block places its row, read back, in its section. */
  lemma EdgeWritten(cell: CellParser, st: ParseState, marker: string, sec: Section, cells: seq<Cell>)
    requires ReadsBackCells(cell) && WritableRow(cells) && SectionMarker(marker, sec)
    ensures var e := Run(cell, st, [marker] + [RowText(cells)] + [""]);
            var row := RowOf(cell, RowText(cells), st.next);
            e.section == sec && e.table == Place(st.table, sec, row) && RowReadsBackAs(row.cells, cells)
  {
    RowLineIsData(cells);
    EdgeLines(cell, st, marker, sec, RowText(cells));
    RowReadsBackWith(cell, cells, st.next);
  }

  /** A trimmed line opening with `[` that names a row section. */
  predicate SectionMarker(m: string, sec: Section) {
    IsTrimmed(m) && m != [] && m[0] == '[' && MarkerSection(m) == Some(sec) && sec != Config
  }

  lemma HeaderMarker()
    ensures SectionMarker("[header]", HeaderSection)
  {
  }

  lemma BodyMarker()
    ensures SectionMarker("[body]", BodySection)
  {
  }

  lemma FooterMarker()
    ensures SectionMarker("[footer]", FooterSection)
  {
  }

  /** A marker, a data line and a blank line: the data line becomes the row of the
      marker's section. */
  lemma EdgeLines(cell: CellParser, st: ParseState, m: string, sec: Section, line: string)
    requires SectionMarker(m, sec) && DataLine(line)
    ensures Run(cell, st, [m] + [line] + [""]) == Placed(cell, st.(section := sec), line)
  {
    RunAppend(cell, st, [m] + [line], [""]);
    MarkerThenData(cell, st, m, sec, line);
    BlankRun(cell, Placed(cell, st.(section := sec), line));
  }

  lemma MarkerThenData(cell: CellParser, st: ParseState, m: string, sec: Section, line: string)
    requires SectionMarker(m, sec) && DataLine(line)
    ensures Run(cell, st, [m] + [line]) == Placed(cell, st.(section := sec), line)
  {
    RunAppend(cell, st, [m], [line]);
    MarkerRun(cell, st, m);
    DataRun(cell, st.(section := sec), line);
  }

  /** The state after a data line: the row lands in the current section and its
      uid and its cells' uids are drawn. */
  function Placed(cell: CellParser, st: ParseState, line: string): ParseState {
    var row := RowOf(cell, line, st.next);
    ParseState(st.section, Place(st.table, st.section, row), st.next + 1 + |row.cells|)
  }

  lemma MarkerRun(cell: CellParser, st: ParseState, m: string)
    requires IsTrimmed(m) && m != [] && m[0] == '[' && MarkerSection(m).Some?
    ensures Run(cell, st, [m]) == st.(section := MarkerSection(m).value)
  {
    RunOne(cell, st, m);
    MarkerStep(cell, st, m);
  }

  lemma DataRun(cell: CellParser, st: ParseState, line: string)
    requires st.section != Config && DataLine(line)
    ensures Run(cell, st, [line]) == Placed(cell, st, line)
  {
    RunOne(cell, st, line);
    DataStep(cell, st, line);
  }

  lemma BlankRun(cell: CellParser, st: ParseState)
    ensures Run(cell, st, [""]) == st
  {
    RunOne(cell, st, "");
    BlankStep(cell, st);
  }

  /** The body block: the marker switches to the body, and each line appends one
      row that reads back as the written row's unflagged cells. */
  lemma BodyBlockRead(cell: CellParser, st: ParseState, rows: seq<Row>)
    requires ReadsBackCells(cell)
    requires forall r :: 0 <= r < |rows| ==> WritableBodyRow(rows[r])
    ensures BodyOutcome(st, Run(cell, st, BodyBlock(rows)), rows)
  {
    if rows != [] {
      assert BodyBlock(rows) == ["[body]"] + BodyLines(rows) + [""];
      BodyMarker();
      BodyMarked(cell, st, "[body]", rows);
    }
  }

  lemma BodyMarked(cell: CellParser, st: ParseState, m: string, rows: seq<Row>)
    requires ReadsBackCells(cell) && SectionMarker(m, BodySection) && rows != []
    requires forall r :: 0 <= r < |rows| ==> WritableBodyRow(rows[r])
    ensures BodyOutcome(st, Run(cell, st, [m] + BodyLines(rows) + [""]), rows)
  {
    MarkedLines(cell, st, m, BodyLines(rows));
    BodyLinesRead(cell, st.(section := BodySection), rows);
  }

  /** A marker, some lines and a blank line: the lines are read in the marker's section. */
  lemma MarkedLines(cell: CellParser, st: ParseState, m: string, lines: seq<string>)
    requires IsTrimmed(m) && m != [] && m[0] == '[' && MarkerSection(m).Some?
    ensures Run(cell, st, [m] + lines + [""]) == Run(cell, st.(section := MarkerSection(m).value), lines)
  {
    RunAppend(cell, st, [m] + lines, [""]);
    RunAppend(cell, st, [m], lines);
    RunOne(cell, st, m);
    MarkerStep(cell, st, m);
    var e := Run(cell, st.(section := MarkerSection(m).value), lines);
    RunOne(cell, e, "");
    BlankStep(cell, e);
  }

  /** The row lines of the body, one row appended per line. */
  lemma BodyLinesRead(cell: CellParser, st: ParseState, rows: seq<Row>)
    requires ReadsBackCells(cell) && st.section == BodySection
    requires forall r :: 0 <= r < |rows| ==> WritableBodyRow(rows[r])
    ensures RowsAppended(st.table, Run(cell, st, BodyLines(rows)), rows)
  {
    var lines := BodyLines(rows);
    forall i | 0 <= i < |lines| ensures DataLine(lines[i]) {
      assert lines[i] == BodyLine(rows[i]);
      RowLineIsData(Visible(rows[i].cells));
    }
    DataLinesRun(cell, st, lines);
    var e := Run(cell, st, lines);
    forall r | 0 <= r < |rows|
      ensures RowReadsBackAs(e.table.body[|st.table.body| + r].cells, Visible(rows[r].cells))
    {
      var cells := Visible(rows[r].cells);
      assert lines[r] == BodyLine(rows[r]);
      assert RowsOf(cell, |st.table.body|, e.table.body, lines);
      RowReadsBackWith(cell, cells, e.table.body[|st.table.body| + r].uid);
    }
  }

  /** A line the loop reads as a row of cells: trimmed, not blank, not a comment and
      not a section marker. */
  predicate DataLine(line: string) {
    Trim(line) == line && !Skipped(line) && MarkerSection(line).None?
  }

  /** Data lines read in the body section each append one row, made from that line. */
  lemma {:induction false} DataLinesRun(cell: CellParser, st: ParseState, lines: seq<string>)
    requires st.section == BodySection
    requires forall i :: 0 <= i < |lines| ==> DataLine(lines[i])
    ensures var e := Run(cell, st, lines);
            && e.section == BodySection
            && e.table.(body := st.table.body) == st.table
            && |e.table.body| == |st.table.body| + |lines|
            && e.table.body[..|st.table.body|] == st.table.body
            && RowsOf(cell, |st.table.body|, e.table.body, lines)
    decreases |lines|
  {
    if lines != [] {
      var n := |lines| - 1;
      var front := lines[..n];
      DataLinesRun(cell, st, front);
      var e1 := Run(cell, st, front);
      BodyDataSnoc(cell, st, lines);
      var e := Run(cell, st, lines);
      BodySnoc(cell, st.table.body, e1.table.body, e.table.body, front, lines, e1.next);
    }
  }

  /** From position k on, the rows of b are made from the lines, one row per line. */
  predicate RowsOf(cell: CellParser, k: nat, b: seq<Row>, lines: seq<string>)
    requires k + |lines| <= |b|
  {
    forall i :: 0 <= i < |lines| ==> b[k + i] == RowOf(cell, lines[i], b[k + i].uid)
  }

  /** The body after one more data line: the rows before stay, and the new row is
      made from the new line. */
  lemma BodySnoc(cell: CellParser, base: seq<Row>, b1: seq<Row>, b: seq<Row>, front: seq<string>, lines: seq<string>, u: Uid)
    requires lines != [] && front == lines[..|lines| - 1]
    requires |b1| == |base| + |front| && b1[..|base|] == base
    requires RowsOf(cell, |base|, b1, front)
    requires b == b1 + [RowOf(cell, lines[|lines| - 1], u)]
    ensures |b| == |base| + |lines| && b[..|base|] == base
    ensures RowsOf(cell, |base|, b, lines)
  {
    var k, n := |base|, |lines| - 1;
    assert b[..k] == b1[..k];
    forall i | 0 <= i < |lines|
      ensures b[k + i] == RowOf(cell, lines[i], b[k + i].uid)
    {
      if i < n {
        assert front[i] == lines[i];
        assert b[k + i] == b1[k + i];
      }
    }
  }

  /** One more data line in the body section appends its row to the body. */
  lemma BodyDataSnoc(cell: CellParser, st: ParseState, lines: seq<string>)
    requires lines != [] && DataLine(lines[|lines| - 1])
    requires Run(cell, st, lines[..|lines| - 1]).section == BodySection
    ensures var e1 := Run(cell, st, lines[..|lines| - 1]);
            var e := Run(cell, st, lines);
            && e.section == BodySection
            && e.table == e1.table.(body := e1.table.body + [RowOf(cell, lines[|lines| - 1], e1.next)])
  {
    DataStep(cell, Run(cell, st, lines[..|lines| - 1]), lines[|lines| - 1]);
  }

  /** The end marker is a comment line. */
  lemma EndRead(cell: CellParser, st: ParseState)
    ensures Run(cell, st, ["#endtable"]) == st
  {
    RunOne(cell, st, "#endtable");
    EndStep(cell, st);
  }

  // ---------------------------------------------------------------- one line

  /** A trimmed line that is neither blank, a comment nor a marker is a data line:
      in a row section it becomes that section's row. */
  lemma DataStep(cell: CellParser, st: ParseState, line: string)
    requires st.section != Config && Trim(line) == line && !Skipped(line) && MarkerSection(line).None?
    ensures var row := RowOf(cell, line, st.next);
            StepLine(cell, st, line) == ParseState(st.section, Place(st.table, st.section, row), st.next + 1 + |row.cells|)
  {
  }

  /** A blank or comment line leaves the state as it is. */
  lemma SkipStep(cell: CellParser, st: ParseState, raw: string)
    requires Skipped(Trim(raw))
    ensures StepLine(cell, st, raw) == st
  {
  }

  /** A section marker switches the section and changes nothing else. */
  lemma MarkerStep(cell: CellParser, st: ParseState, m: string)
    requires IsTrimmed(m) && m != [] && m[0] == '[' && MarkerSection(m).Some?
    ensures StepLine(cell, st, m) == st.(section := MarkerSection(m).value)
  {
    TrimTrimmed(m);
    assert m[..1] != "#";
  }

  lemma TableStep(cell: CellParser, st: ParseState)
    ensures StepLine(cell, st, "#table") == st
  {
    CommentSkipped("#table");
    SkipStep(cell, st, "#table");
  }

  lemma EndStep(cell: CellParser, st: ParseState)
    ensures StepLine(cell, st, "#endtable") == st
  {
    CommentSkipped("#endtable");
    SkipStep(cell, st, "#endtable");
  }

  lemma BlankStep(cell: CellParser, st: ParseState)
    ensures StepLine(cell, st, "") == st
  {
    BlankSkipped();
    SkipStep(cell, st, "");
  }

  /** In the configuration section, a line starting with a letter is a configuration
      line. */
  lemma ConfigStep(cell: CellParser, st: ParseState, raw: string)
    requires st.section == Config && |Trim(raw)| >= 1 && 'a' <= Trim(raw)[0] <= 'z'
    ensures StepLine(cell, st, raw) == st.(table := ConfigLine(st.table, Trim(raw)))
  {
    LetterLine(Trim(raw));
  }

  lemma LetterLine(l: string)
    requires |l| >= 1 && 'a' <= l[0] <= 'z'
    ensures !Skipped(l) && MarkerSection(l).None?
  {
    assert l[..1] != "#";
  }

  /** A trimmed comment line is skipped. */
  lemma CommentSkipped(line: string)
    requires IsTrimmed(line) && line != [] && line[0] == '#'
    ensures Skipped(Trim(line))
  {
    TrimTrimmed(line);
    assert line[..1] == "#";
  }

  lemma BlankSkipped()
    ensures Skipped(Trim([]))
  {
    TrimTrimmed([]);
  }

  /** `name: <name>` sets the name. */
  lemma NameLineRead(cell: CellParser, st: ParseState, name: string)
    requires st.section == Config && IsTrimmed(name)
    ensures StepLine(cell, st, "name: " + name) == st.(table := st.table.(name := name))
  {
    KeySpace("name: ", "name:");
    KeyStep(cell, st, "name:", name, "name: " + name);
    NameConfig(st.table, Trim("name: " + name), name);
  }

  /** `cols: <n>` sets the column count, `cols: NaN` sets it to NaN. */
  lemma ColsLineRead(cell: CellParser, st: ParseState, cols: NumberValue)
    requires st.section == Config
    ensures StepLine(cell, st, "cols: " + ShowNumber(cols)) == st.(table := st.table.(cols := cols))
  {
    NumberShown(cols);
    ColsLineWith(cell, st, ShowNumber(cols), cols);
  }

  lemma ColsLineWith(cell: CellParser, st: ParseState, v: string, cols: NumberValue)
    requires st.section == Config && IsTrimmed(v) && NumberOf(v) == cols
    ensures StepLine(cell, st, "cols: " + v) == st.(table := st.table.(cols := cols))
  {
    KeySpace("cols: ", "cols:");
    KeyStep(cell, st, "cols:", v, "cols: " + v);
    ColsConfig(st.table, Trim("cols: " + v), v, cols);
  }

  /** `showSerialIndex: <b>` sets the flag. */
  lemma SerialLineRead(cell: CellParser, st: ParseState, b: bool)
    requires st.section == Config
    ensures StepLine(cell, st, "showSerialIndex: " + ShowBool(b)) == st.(table := st.table.(showSerialIndex := b))
  {
    var v := ShowBool(b);
    assert IsTrimmed(v) && (v != "false") == b;
    SerialLineWith(cell, st, v, b);
  }

  lemma SerialLineWith(cell: CellParser, st: ParseState, v: string, b: bool)
    requires st.section == Config && IsTrimmed(v) && (v != "false") == b
    ensures StepLine(cell, st, "showSerialIndex: " + v) == st.(table := st.table.(showSerialIndex := b))
  {
    KeySpace("showSerialIndex: ", "showSerialIndex:");
    KeyStep(cell, st, "showSerialIndex:", v, "showSerialIndex: " + v);
    SerialConfig(st.table, Trim("showSerialIndex: " + v), v, b);
  }

  /** The column count a `cols:` value sets. */
  function NumberOf(v: string): NumberValue {
    match ParseInt(v)
    case None => NaN
    case Some(n) => Int(n)
  }

  lemma NameConfig(tb: Table, line: string, name: string)
    requires StartsWith(line, "name:") && Trim(line[5..]) == name
    ensures ConfigLine(tb, line) == tb.(name := name)
  {
  }

  lemma ColsConfig(tb: Table, line: string, v: string, cols: NumberValue)
    requires StartsWith(line, "cols:") && Trim(line[5..]) == v && NumberOf(v) == cols
    ensures ConfigLine(tb, line) == tb.(cols := cols)
  {
    ColsNotName(line);
  }

  lemma ColsNotName(line: string)
    requires StartsWith(line, "cols:")
    ensures !StartsWith(line, "name:")
  {
    assert line[0] == "cols:"[0];
  }

  lemma SerialConfig(tb: Table, line: string, v: string, b: bool)
    requires StartsWith(line, "showSerialIndex:") && Trim(line[16..]) == v && (v != "false") == b
    ensures ConfigLine(tb, line) == tb.(showSerialIndex := b)
  {
    SerialNotOther(line);
  }

  lemma SerialNotOther(line: string)
    requires StartsWith(line, "showSerialIndex:")
    ensures !StartsWith(line, "name:") && !StartsWith(line, "cols:")
  {
    assert line[0] == "showSerialIndex:"[0];
  }

  /** The text of a number is trimmed and reads back as the number. */
  lemma NumberShown(v: NumberValue)
    ensures IsTrimmed(ShowNumber(v)) && NumberOf(ShowNumber(v)) == v
  {
    match v
    case Int(n) =>
      IntToStringShape(n);
      ParseIntOfIntToString(n);
    case NaN =>
      NaNTrimmed();
      NaNShown();
  }

  lemma NaNTrimmed()
    ensures IsTrimmed("NaN")
  {
    var s := "NaN";
    assert s[0] == 'N' && s[|s| - 1] == 'N';
  }

  lemma NaNShown()
    ensures NumberOf("NaN") == NaN
  {
    ParseIntOfNaN();
  }

  /** A configuration line `<key> <value>` read in the configuration section. */
  lemma KeyStep(cell: CellParser, st: ParseState, key: string, v: string, line: string)
    requires st.section == Config
    requires |key| >= 1 && 'a' <= key[0] <= 'z' && key[|key| - 1] == ':' && IsTrimmed(v)
    requires line == key + " " + v
    ensures StepLine(cell, st, line) == st.(table := ConfigLine(st.table, Trim(line)))
    ensures StartsWith(Trim(line), key) && Trim(Trim(line)[|key|..]) == v
  {
    KeyLine(key, v);
    ConfigStep(cell, st, line);
  }

  /** A written key with its space is the key followed by a space. */
  lemma KeySpace(written: string, key: string)
    requires |written| == |key| + 1 && written[..|key|] == key && written[|key|] == ' '
    ensures written == key + " "
  {
  }

  /** A configuration line `<key> <value>`, trimmed, starts with the key and holds
      the value after it. */
  lemma KeyLine(key: string, v: string)
    requires |key| >= 1 && 'a' <= key[0] <= 'z' && key[|key| - 1] == ':' && IsTrimmed(v)
    ensures var l := Trim(key + " " + v);
            |l| >= 1 && l[0] == key[0] && StartsWith(l, key) && Trim(l[|key|..]) == v
  {
    if v == [] {
      KeyLineEmpty(key, v);
    } else {
      KeyLineFilled(key, v);
    }
  }

  lemma KeyLineEmpty(key: string, v: string)
    requires |key| >= 1 && 'a' <= key[0] <= 'z' && key[|key| - 1] == ':' && v == []
    ensures var l := Trim(key + " " + v);
            |l| >= 1 && l[0] == key[0] && StartsWith(l, key) && Trim(l[|key|..]) == v
  {
    KeyLineBare(key);
    assert key + " " + v == key + " " + [];
    SelfPrefix(key);
  }

  lemma SelfPrefix(s: string)
    ensures StartsWith(s, s)
  {
    assert s[..|s|] == s;
  }

  lemma KeyLineFilled(key: string, v: string)
    requires |key| >= 1 && 'a' <= key[0] <= 'z' && v != [] && IsTrimmed(v)
    ensures var l := Trim(key + " " + v);
            |l| >= 1 && l[0] == key[0] && StartsWith(l, key) && Trim(l[|key|..]) == v
  {
    KeyLineValue(key, v);
    assert StartsWith(key + " " + v, key);
  }

  lemma KeyLineBare(key: string)
    requires |key| >= 1 && !IsWhitespace(key[0]) && !IsWhitespace(key[|key| - 1])
    ensures Trim(key + " " + []) == key && Trim(key[|key|..]) == []
  {
    assert key + " " + [] == key + " ";
    TrimBeforeSpace(key);
    assert key[|key|..] == [];
    TrimTrimmed([]);
  }

  lemma KeyLineValue(key: string, v: string)
    requires |key| >= 1 && !IsWhitespace(key[0]) && v != [] && IsTrimmed(v)
    ensures var line := key + " " + v;
            Trim(line) == line && line[..|key|] == key && Trim(line[|key|..]) == v
  {
    var line := key + " " + v;
    assert line[0] == key[0] && line[|line| - 1] == v[|v| - 1];
    TrimTrimmed(line);
    AfterKey(key, v);
    TrimAfterSpace(v);
    TrimTrimmed(v);
  }

  lemma AfterKey(key: string, v: string)
    ensures (key + " " + v)[..|key|] == key && (key + " " + v)[|key|..] == " " + v
  {
  }

  /** A written row line is a data line. */
  lemma RowLineIsData(cells: seq<Cell>)
    requires WritableRow(cells)
    ensures DataLine(RowText(cells))
  {
    RowTextNotMarker(cells);
    DataLineOf(RowText(cells));
  }

  lemma DataLineOf(line: string)
    requires Solid(line) && line[0] != '#' && MarkerSection(line).None?
    ensures DataLine(line)
  {
    TrimTrimmed(line);
    assert line[..1] != "#" by {
      assert line[..1][0] == line[0];
    }
  }

  /** A written row line is not a section marker: a single cell's text is not one,
      and a longer line holds a `|`. */
  lemma RowTextNotMarker(cells: seq<Cell>)
    requires |cells| >= 1 && forall k :: 0 <= k < |cells| ==> Writable(cells[k])
    ensures MarkerSection(RowText(cells)).None?
  {
    var texts := CellTexts(cells);
    if |cells| == 1 {
      assert RowText(cells) == texts[0];
      CellTextHead(cells[0]);
      NotMarkerByHead(texts[0]);
    } else {
      JoinFirst(texts, " | ");
      var line := RowText(cells);
      assert line == texts[0] + " | " + Join(texts[1..], " | ");
      assert line[|texts[0]| + 1] == '|';
      NotMarkerByBar(line, |texts[0]| + 1);
    }
  }

  lemma NotMarkerByBar(l: string, i: nat)
    requires i < |l| && l[i] == '|'
    ensures MarkerSection(l).None?
  {
  }

  lemma NotMarkerByHead(l: string)
    requires l == [] || l[0] != '[' || (|l| >= 3 && (l[1] == 'l' || (l[1] == 'b' && l[2] == 'u')))
    ensures MarkerSection(l).None?
  {
  }

  /** The text of a writable cell starts with `[l` or `[bu` if it starts with `[` at all. */
  lemma CellTextHead(c: Cell)
    requires Writable(c)
    ensures var t := CellText(c);
            t == [] || t[0] != '[' || (|t| >= 3 && (t[1] == 'l' || (t[1] == 'b' && t[2] == 'u')))
  {
    CellTextParts(c);
    var v := Content(c);
    var t := CellText(c);
    if v != [] {
      assert t[..|v|] == v;
      ContentHead(c);
    }
  }

  lemma ContentHead(c: Cell)
    requires Writable(c)
    ensures var v := Content(c);
            v == [] || v[0] != '[' || (|v| >= 3 && (v[1] == 'l' || (v[1] == 'b' && v[2] == 'u')))
  {
    var v := Content(c);
    if c.kind == "text" {
      if v != [] {
        assert PlainChar(v[0]);
      }
    } else if c.kind == "link" {
      assert v[..6] == "[link ";
    } else {
      assert v[..8] == "[button ";
    }
  }

  // ---------------------------------------------------------------- the loop

  lemma {:induction false} RunAppend(cell: CellParser, st: ParseState, a: seq<string>, b: seq<string>)
    ensures Run(cell, st, a + b) == Run(cell, Run(cell, st, a), b)
    decreases |b|
  {
    if b == [] {
      assert a + b == a;
    } else {
      RunAppend(cell, st, a, b[..|b| - 1]);
      AppendLast(cell, st, a, b);
    }
  }

  /** The last pass over `a + b` reads the last line of `b`. */
  lemma AppendLast(cell: CellParser, st: ParseState, a: seq<string>, b: seq<string>)
    requires b != []
    ensures Run(cell, st, a + b) == StepLine(cell, Run(cell, st, a + b[..|b| - 1]), b[|b| - 1])
  {
    SnocSplit(a, b);
    LastStep(cell, st, a + b, a + b[..|b| - 1], b[|b| - 1]);
  }

  /** The loop's last pass reads the last line. */
  lemma LastStep(cell: CellParser, st: ParseState, lines: seq<string>, front: seq<string>, last: string)
    requires lines != [] && lines[..|lines| - 1] == front && lines[|lines| - 1] == last
    ensures Run(cell, st, lines) == StepLine(cell, Run(cell, st, front), last)
  {
  }

  lemma SnocSplit<T>(a: seq<T>, b: seq<T>)
    requires b != []
    ensures a + b != [] && (a + b)[..|a + b| - 1] == a + b[..|b| - 1] && (a + b)[|a + b| - 1] == b[|b| - 1]
  {
    assert (a + b)[..|a + b| - 1] == a + b[..|b| - 1];
  }

  lemma RunOne(cell: CellParser, st: ParseState, line: string)
    ensures Run(cell, st, [line]) == StepLine(cell, st, line)
  {
    assert [line][..0] == [];
  }

  /** The loop over the five blocks of a table text, block by block. */
  lemma RunBlocks(cell: CellParser, st: ParseState, p: seq<string>, h: seq<string>, b: seq<string>, f: seq<string>, e: seq<string>)
    ensures Run(cell, st, p + h + b + f + e)
         == Run(cell, Run(cell, Run(cell, Run(cell, Run(cell, st, p), h), b), f), e)
  {
    RunAppend(cell, st, p, h);
    RunAppend(cell, st, p + h, b);
    RunAppend(cell, st, p + h + b, f);
    RunAppend(cell, st, p + h + b + f, e);
  }

  // ---------------------------------------------------------------- the lines

  /** Splitting the text of a writable table on newlines gives its lines back. */
  lemma LinesSplit(t: Table)
    requires WritableTable(t)
    ensures Split(Stringify.Stringify(t), '\n') == Lines(t)
  {
    var p, h, b, f := Preamble(t), EdgeBlock("[header]", t.header), BodyBlock(t.body), EdgeBlock("[footer]", t.footer);
    PreambleOneLine(t);
    EdgeOneLine("[header]", t.header);
    BodyOneLine(t.body);
    EdgeOneLine("[footer]", t.footer);
    OneLineConcat(p, h);
    OneLineConcat(p + h, b);
    OneLineConcat(p + h + b, f);
    OneLineConcat(p + h + b + f, ["#endtable"]);
    assert Lines(t) == p + h + b + f + ["#endtable"];
    SplitOfJoin(Lines(t), '\n');
  }

  /** Lines none of which holds a newline. */
  predicate OneLine(lines: seq<string>) {
    forall k :: 0 <= k < |lines| ==> '\n' !in lines[k]
  }

  lemma OneLineConcat(a: seq<string>, b: seq<string>)
    requires OneLine(a) && OneLine(b)
    ensures OneLine(a + b)
  {
    forall k | 0 <= k < |a + b| ensures '\n' !in (a + b)[k] {
      if k >= |a| {
        assert (a + b)[k] == b[k - |a|];
      }
    }
  }

  lemma PreambleOneLine(t: Table)
    requires '\n' !in t.name
    ensures OneLine(Preamble(t))
  {
    var v := ShowNumber(t.cols);
    if t.cols.Int? {
      var n := t.cols.value;
      var d := NatToString(if n < 0 then -n else n);
      assert forall m :: 0 <= m < |d| ==> IsDigit(d[m]);
    }
    assert '\n' !in v;
  }

  lemma EdgeOneLine(marker: string, r: Option<Row>)
    requires WritableEdge(r) && '\n' !in marker
    ensures OneLine(EdgeBlock(marker, r))
  {
    if HasCells(r) {
      RowTextOneLine(r.value.cells);
    }
  }

  lemma BodyOneLine(rows: seq<Row>)
    requires forall r :: 0 <= r < |rows| ==> WritableBodyRow(rows[r])
    ensures OneLine(BodyBlock(rows))
  {
    if rows != [] {
      var lines := BodyLines(rows);
      forall r | 0 <= r < |rows| ensures '\n' !in lines[r] {
        assert lines[r] == BodyLine(rows[r]);
        RowTextOneLine(Visible(rows[r].cells));
      }
      OneLineConcat(["[body]"], lines);
      OneLineConcat(["[body]"] + lines, [""]);
    }
  }

  /** A row line of writable cells holds no newline. */
  lemma RowTextOneLine(cells: seq<Cell>)
    requires forall k :: 0 <= k < |cells| ==> Writable(cells[k])
    ensures '\n' !in RowText(cells)
  {
    var texts := CellTexts(cells);
    forall k | 0 <= k < |texts| ensures '\n' !in texts[k] {
      CellTextShape(cells[k]);
      NoNewlineInline(texts[k]);
    }
    JoinOneLine(texts, " | ");
  }

  lemma NoNewlineInline(s: string)
    requires Inline(s)
    ensures '\n' !in s
  {
  }

  lemma {:induction false} JoinOneLine(parts: seq<string>, sep: string)
    requires OneLine(parts) && '\n' !in sep
    ensures '\n' !in Join(parts, sep)
  {
    if |parts| > 1 {
      JoinOneLine(parts[1..], sep);
      assert '\n' !in parts[0];
    }
  }
}
