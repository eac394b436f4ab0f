/** `parseTableString`: the text is split on "\n" and read line by line. Blank lines
    and comment lines are skipped, `[header]`, `[body]` and `[footer]` switch the
    section, lines before the first section set the configuration, and every other
    line becomes a row of cells split on "|". The row-span normaliser runs last. */
module ParseTable {
  import opened Wrappers
  import opened Strings
  import opened StringFacts
  import opened Types
  import opened ParseCell
  import opened Normalize
  import opened NormalizeProperties

  /** `currentSection`; `Config` is its initial `null`. */
  datatype Section = Config | HeaderSection | BodySection | FooterSection

  /** The loop state: the section, the document built so far, and the next uid to draw. */
  datatype ParseState = ParseState(section: Section, table: Table, next: Uid)

  /** The cell parser the line loop calls for each raw cell, with the uid it draws.
      The loop is stated over any such parser, so its properties do not depend on how
      a cell is read; `Parse` plugs in `CellOf`. */
  type CellParser = (string, Uid) -> Cell

  /** The cells of a row, the k-th drawing uid `first + k`. */
  function CellsOf(cell: CellParser, raws: seq<string>, first: Uid): (cells: seq<Cell>)
    ensures |cells| == |raws|
  {
    seq(|raws|, k requires 0 <= k < |raws| => cell(raws[k], first + k))
  }

  /** The row of a data line: the row draws its uid before its cells do. */
  function RowOf(cell: CellParser, line: string, next: Uid): Row {
    Row(next, CellsOf(cell, Split(line, '|'), next + 1))
  }

  /** A configuration line before the first section; any other line there is ignored. */
  function ConfigLine(t: Table, line: string): Table {
    if StartsWith(line, "name:") then t.(name := Trim(line[5..]))
    else if StartsWith(line, "cols:") then
      t.(cols := match ParseInt(Trim(line[5..])) case None => NaN case Some(n) => Int(n))
    else if StartsWith(line, "showSerialIndex:") then t.(showSerialIndex := Trim(line[16..]) != "false")
    else t
  }

  /** A trimmed line the loop skips: empty, or a comment. */
  predicate Skipped(line: string) {
    line == [] || StartsWith(line, "#")
  }

  function MarkerSection(line: string): Option<Section> {
    if line == "[header]" then Some(HeaderSection)
    else if line == "[body]" then Some(BodySection)
    else if line == "[footer]" then Some(FooterSection)
    else None
  }

  /** A row lands in its section: header and footer are replaced, the body grows. */
  function Place(t: Table, section: Section, row: Row): Table {
    match section
    case FooterSection => t.(footer := Some(row))
    case HeaderSection => t.(header := Some(row))
    case BodySection => t.(body := t.body + [row])
    case Config => t
  }

  /** One pass of the loop over the lines: the line is trimmed first. */
  function StepLine(cell: CellParser, st: ParseState, raw: string): ParseState {
    Step(cell, st, Trim(raw))
  }

  /** One pass of the loop on a trimmed line. */
  function Step(cell: CellParser, st: ParseState, line: string): ParseState {
    if Skipped(line) then st
    else if MarkerSection(line).Some? then st.(section := MarkerSection(line).value)
    else if st.section == Config then st.(table := ConfigLine(st.table, line))
    else
      var row := RowOf(cell, line, st.next);
      ParseState(st.section, Place(st.table, st.section, row), st.next + 1 + |row.cells|)
  }

  /** The loop over a sequence of lines, as a fold over its prefixes. */
  function Run(cell: CellParser, st: ParseState, lines: seq<string>): ParseState
    decreases |lines|
  {
    if lines == [] then st else StepLine(cell, Run(cell, st, lines[..|lines| - 1]), lines[|lines| - 1])
  }

  /** The state before the first line: header and footer take the first two uids. */
  function Start(next: Uid): ParseState {
    ParseState(Config, InitialStructure(next), next + 2)
  }

  /** The whole parse with a given cell parser. */
  function ParseWith(cell: CellParser, s: string, next: Uid): Table {
    if |s| == 0 then InitialStructure(next)
    else NormalizeTable(Run(cell, Start(next), Split(s, '\n')).table)
  }

  /** `parseTableString(s)`, with uids drawn from `next` on. */
  function Parse(s: string, next: Uid): Table {
    ParseWith(CellOf, s, next)
  }

  // ---------------------------------------------------------------- the loops

  /** `parseTableString`, with the cell parser of this module. */
  method ParseTableString(formatString: string, next: Uid) returns (result: Table)
    ensures result == Parse(formatString, next)
  {
    result := ParseTableWith(CellOf, formatString, next);
  }

  /** `parseTableString` for any cell parser: split into lines, run the loop, then
      normalise the row spans. */
  method ParseTableWith(cell: CellParser, formatString: string, next: Uid) returns (result: Table)
    ensures result == ParseWith(cell, formatString, next)
  {
    result := InitialStructure(next);
    if |formatString| == 0 {
      return;
    }
    var lines := Split(formatString, '\n');
    var st := ReadLines(cell, lines, next);
    result := NormalizeRowSpan(st.table);
  }

  /** The loop over the lines: the section, the document so far and the uid counter. */
  method ReadLines(cell: CellParser, lines: seq<string>, next: Uid) returns (st: ParseState)
    ensures st == Run(cell, Start(next), lines)
  {
    var currentSection := Config;
    var result := InitialStructure(next);
    var uid: Uid := next + 2;
    var i := 0;
    while i < |lines|
      invariant i <= |lines|
      invariant ParseState(currentSection, result, uid) == Run(cell, Start(next), lines[..i])
    {
      RunSnoc(cell, Start(next), lines, i);
      currentSection, result, uid := ReadLine(cell, currentSection, result, uid, lines[i]);
      i := i + 1;
    }
    assert lines[..i] == lines;
    st := ParseState(currentSection, result, uid);
  }

  /** The body of the loop over the lines; each early `continue` is a branch. */
  method ReadLine(cell: CellParser, section: Section, table: Table, uid: Uid, raw: string)
    returns (section': Section, table': Table, uid': Uid)
    ensures ParseState(section', table', uid') == StepLine(cell, ParseState(section, table, uid), raw)
  {
    section', table', uid' := section, table, uid;
    var line := Trim(raw);
    if Skipped(line) {
      return;
    }
    if line == "[header]" {
      section' := HeaderSection;
      return;
    }
    if line == "[body]" {
      section' := BodySection;
      return;
    }
    if line == "[footer]" {
      section' := FooterSection;
      return;
    }
    if section == Config {
      table' := ConfigLine(table, line);
      return;
    }
    var cells := ParseRowCells(cell, line, uid + 1);
    var row := Row(uid, cells);
    assert MarkerSection(line).None? && row == RowOf(cell, line, uid);
    uid' := uid + 1 + |cells|;
    if section == FooterSection {
      table' := table.(footer := Some(row));
    } else if section == HeaderSection {
      table' := table.(header := Some(row));
    } else {
      table' := table.(body := table.body + [row]);
    }
  }

  /** The loop over the raw cells of one data line; the row itself took uid `first - 1`. */
  method ParseRowCells(cell: CellParser, line: string, first: Uid) returns (cells: seq<Cell>)
    ensures cells == CellsOf(cell, Split(line, '|'), first)
  {
    var rawCells := Split(line, '|');
    cells := [];
    var k := 0;
    while k < |rawCells|
      invariant k <= |rawCells|
      invariant cells == CellsOf(cell, rawCells[..k], first)
    {
      var c := cell(rawCells[k], first + k);
      CellsOfSnoc(cell, rawCells, k, first);
      cells := cells + [c];
      k := k + 1;
    }
    assert rawCells[..k] == rawCells;
  }

  lemma RunSnoc(cell: CellParser, st: ParseState, lines: seq<string>, i: nat)
    requires i < |lines|
    ensures Run(cell, st, lines[..i + 1]) == StepLine(cell, Run(cell, st, lines[..i]), lines[i])
  {
    assert lines[..i + 1][..i] == lines[..i];
  }

  lemma CellsOfSnoc(cell: CellParser, raws: seq<string>, k: nat, first: Uid)
    requires k < |raws|
    ensures CellsOf(cell, raws[..k + 1], first) == CellsOf(cell, raws[..k], first) + [cell(raws[k], first + k)]
  {
  }

  // ---------------------------------------------------------------- properties

  /** A cell parser that gives each cell the uid it draws. */
  ghost predicate TakesUid(cell: CellParser) {
    forall raw, u :: cell(raw, u).uid == u
  }

  lemma CellOfTakesUid()
    ensures TakesUid(CellOf)
  {
    forall raw, u ensures CellOf(raw, u).uid == u {
      CellTakesFreshUidAndBlockSpans(raw, u);
    }
  }

  /** A data line has one cell more than it has "|" characters. */
  lemma RowCellCount(cell: CellParser, line: string, next: Uid)
    ensures |RowOf(cell, line, next).cells| == multiset(line)['|'] + 1
  {
    SplitCount(line, '|');
  }

  /** The uids of a row are `next`, then `next + 1`, `next + 2`, … for its cells in order. */
  lemma RowUidsFresh(cell: CellParser, line: string, next: Uid)
    requires TakesUid(cell)
    ensures var r := RowOf(cell, line, next);
            r.uid == next && forall k :: 0 <= k < |r.cells| ==> r.cells[k].uid == next + 1 + k
  {
  }

  /** The uids of a row lie in `[lo, hi)`. */
  predicate RowIn(r: Row, lo: Uid, hi: Uid) {
    lo <= r.uid < hi && forall c :: c in r.cells ==> lo <= c.uid < hi
  }

  /** Every uid of the document lies in `[lo, hi)`. */
  predicate UidsIn(t: Table, lo: Uid, hi: Uid) {
    && (t.header.Some? ==> RowIn(t.header.value, lo, hi))
    && (forall r :: r in t.body ==> RowIn(r, lo, hi))
    && (t.footer.Some? ==> RowIn(t.footer.value, lo, hi))
  }

  /** A line draws uids only from the counter upwards: the document's uids stay at or
      above `lo` and below the counter, so a new row never reuses a uid. */
  lemma StepKeepsUidsIn(cell: CellParser, st: ParseState, raw: string, lo: Uid)
    requires TakesUid(cell) && lo <= st.next && UidsIn(st.table, lo, st.next)
    ensures st.next <= StepLine(cell, st, raw).next
    ensures UidsIn(StepLine(cell, st, raw).table, lo, StepLine(cell, st, raw).next)
  {
    var line := Trim(raw);
    assert StepLine(cell, st, raw) == Step(cell, st, line);
    StepUidsIn(cell, st, line, lo);
  }

  lemma StepUidsIn(cell: CellParser, st: ParseState, line: string, lo: Uid)
    requires TakesUid(cell) && lo <= st.next && UidsIn(st.table, lo, st.next)
    ensures st.next <= Step(cell, st, line).next
    ensures UidsIn(Step(cell, st, line).table, lo, Step(cell, st, line).next)
  {
    if Skipped(line) || MarkerSection(line).Some? {
    } else if st.section == Config {
      ConfigLineKeepsRows(st.table, line);
      assert Step(cell, st, line) == st.(table := ConfigLine(st.table, line));
    } else {
      var row := RowOf(cell, line, st.next);
      var n := st.next + 1 + |row.cells|;
      assert Step(cell, st, line) == ParseState(st.section, Place(st.table, st.section, row), n);
      DataRowIn(cell, line, st.next, lo);
      PlaceKeepsUidsIn(st.table, st.section, row, lo, st.next, n);
    }
  }

  lemma DataRowIn(cell: CellParser, line: string, next: Uid, lo: Uid)
    requires TakesUid(cell) && lo <= next
    ensures var r := RowOf(cell, line, next);
            RowIn(r, lo, next + 1 + |r.cells|)
  {
    var r := RowOf(cell, line, next);
    RowUidsFresh(cell, line, next);
    forall c | c in r.cells ensures lo <= c.uid < next + 1 + |r.cells| {
      var k :| 0 <= k < |r.cells| && r.cells[k] == c;
    }
  }

  lemma PlaceKeepsUidsIn(t: Table, section: Section, row: Row, lo: Uid, mid: Uid, hi: Uid)
    requires mid <= hi && UidsIn(t, lo, mid) && RowIn(row, lo, hi)
    ensures UidsIn(Place(t, section, row), lo, hi)
  {
    forall r | r in t.body ensures RowIn(r, lo, hi) {
      assert RowIn(r, lo, mid);
    }
  }

  lemma {:induction false} RunKeepsUidsIn(cell: CellParser, st: ParseState, lines: seq<string>, lo: Uid)
    requires TakesUid(cell) && lo <= st.next && UidsIn(st.table, lo, st.next)
    ensures st.next <= Run(cell, st, lines).next
    ensures UidsIn(Run(cell, st, lines).table, lo, Run(cell, st, lines).next)
    decreases |lines|
  {
    if lines != [] {
      RunKeepsUidsIn(cell, st, lines[..|lines| - 1], lo);
      StepKeepsUidsIn(cell, Run(cell, st, lines[..|lines| - 1]), lines[|lines| - 1], lo);
    }
  }

  /** Once a section marker has been read, configuration lines no longer apply:
      name, cols and showSerialIndex stay as they were, and the section never goes
      back to configuration. */
  lemma {:induction false} ConfigFixedAfterSections(cell: CellParser, st: ParseState, lines: seq<string>)
    requires st.section != Config
    ensures var e := Run(cell, st, lines);
            e.section != Config && e.table.name == st.table.name
            && e.table.cols == st.table.cols && e.table.showSerialIndex == st.table.showSerialIndex
    decreases |lines|
  {
    if lines != [] {
      var pre := Run(cell, st, lines[..|lines| - 1]);
      ConfigFixedAfterSections(cell, st, lines[..|lines| - 1]);
      var line := Trim(lines[|lines| - 1]);
      assert Run(cell, st, lines) == Step(cell, pre, line);
      StepKeepsConfig(cell, pre, line);
    }
  }

  /** Outside the configuration section a step keeps the configuration fields and
      does not return to that section. */
  lemma StepKeepsConfig(cell: CellParser, st: ParseState, line: string)
    requires st.section != Config
    ensures Step(cell, st, line).section != Config
    ensures Step(cell, st, line).table.name == st.table.name
    ensures Step(cell, st, line).table.cols == st.table.cols
    ensures Step(cell, st, line).table.showSerialIndex == st.table.showSerialIndex
  {
  }

  /** Body rows once read are never changed or removed; later lines only append. */
  lemma {:induction false} BodyOnlyGrows(cell: CellParser, st: ParseState, lines: seq<string>)
    ensures IsPrefix(st.table.body, Run(cell, st, lines).table.body)
    decreases |lines|
  {
    if lines != [] {
      var pre := Run(cell, st, lines[..|lines| - 1]);
      BodyOnlyGrows(cell, st, lines[..|lines| - 1]);
      StepBodyGrows(cell, pre, lines[|lines| - 1]);
      PrefixTransitive(st.table.body, pre.table.body, Run(cell, st, lines).table.body);
    }
  }

  predicate IsPrefix(a: seq<Row>, b: seq<Row>) {
    |a| <= |b| && b[..|a|] == a
  }

  lemma PrefixTransitive(a: seq<Row>, b: seq<Row>, c: seq<Row>)
    requires IsPrefix(a, b) && IsPrefix(b, c)
    ensures IsPrefix(a, c)
  {
    assert c[..|a|] == c[..|b|][..|a|];
  }

  lemma StepBodyGrows(cell: CellParser, st: ParseState, raw: string)
    ensures IsPrefix(st.table.body, StepLine(cell, st, raw).table.body)
  {
    var line := Trim(raw);
    assert StepLine(cell, st, raw) == Step(cell, st, line);
    StepBody(cell, st, line);
  }

  /** A step leaves the body as it was or appends the row of the line. */
  lemma StepBody(cell: CellParser, st: ParseState, line: string)
    ensures IsPrefix(st.table.body, Step(cell, st, line).table.body)
  {
    var t := st.table;
    if Skipped(line) || MarkerSection(line).Some? {
    } else if st.section == Config {
      ConfigLineKeepsRows(t, line);
    } else {
      var row := RowOf(cell, line, st.next);
      assert Step(cell, st, line).table == Place(t, st.section, row);
      assert (t.body + [row])[..|t.body|] == t.body;
    }
  }

  /** A configuration line changes no row. */
  lemma ConfigLineKeepsRows(t: Table, line: string)
    ensures ConfigLine(t, line).header == t.header
    ensures ConfigLine(t, line).body == t.body
    ensures ConfigLine(t, line).footer == t.footer
  {
  }

  /** In the header section two data lines in a row leave only the second: a later
      header line replaces the earlier one, and the body is not touched. */
  lemma LastHeaderLineWins(cell: CellParser, st: ParseState, a: string, b: string)
    requires st.section == HeaderSection
    requires !Skipped(Trim(a)) && MarkerSection(Trim(a)).None?
    requires !Skipped(Trim(b)) && MarkerSection(Trim(b)).None?
    ensures Run(cell, st, [a, b]).section == HeaderSection
    ensures Run(cell, st, [a, b]).table.body == st.table.body
    ensures Run(cell, st, [a, b]).table.header == Some(RowOf(cell, Trim(b), StepLine(cell, st, a).next))
  {
    var mid := StepLine(cell, st, a);
    RunTwo(cell, st, a, b);
    HeaderLine(cell, st, Trim(a));
    HeaderLine(cell, mid, Trim(b));
  }

  /** Two lines are read one after the other. */
  lemma RunTwo(cell: CellParser, st: ParseState, a: string, b: string)
    ensures Run(cell, st, [a, b]) == StepLine(cell, StepLine(cell, st, a), b)
  {
    assert [a, b][..1] == [a];
    assert [a][..0] == [];
    assert Run(cell, st, [a]) == StepLine(cell, st, a);
  }

  /** A data line in the header section replaces the header row. */
  lemma HeaderLine(cell: CellParser, st: ParseState, line: string)
    requires st.section == HeaderSection && !Skipped(line) && MarkerSection(line).None?
    ensures Step(cell, st, line).section == HeaderSection
    ensures Step(cell, st, line).table == st.table.(header := Some(RowOf(cell, line, st.next)))
  {
  }

  /** A line ending "\r\n" reads as the same line without the "\r". */
  lemma CarriageReturnIgnored(cell: CellParser, st: ParseState, raw: string)
    ensures StepLine(cell, st, raw + "\r") == StepLine(cell, st, raw)
  {
    TrimIgnoresTrailingCR(raw);
  }

  /** Lines that are all blank or comments leave the state as it is. */
  lemma {:induction false} QuietLinesKeepState(cell: CellParser, st: ParseState, lines: seq<string>)
    requires forall k :: 0 <= k < |lines| ==> Skipped(Trim(lines[k]))
    ensures Run(cell, st, lines) == st
    decreases |lines|
  {
    if lines != [] {
      QuietLinesKeepState(cell, st, lines[..|lines| - 1]);
    }
  }

  /** A text of only blank and comment lines parses to the initial document. */
  lemma QuietTextIsInitial(s: string, next: Uid)
    requires forall k :: 0 <= k < |Split(s, '\n')| ==> Skipped(Trim(Split(s, '\n')[k]))
    ensures Parse(s, next) == InitialStructure(next)
  {
    if |s| > 0 {
      QuietLinesKeepState(CellOf, Start(next), Split(s, '\n'));
    }
  }

  /** No body cell of a parsed document is still marked for removal. */
  lemma ParsedBodyHasNoRemovedCell(s: string, next: Uid)
    ensures forall r, c :: r in Parse(s, next).body && c in r.cells ==> !c.removed
  {
    if |s| > 0 {
      var body := Run(CellOf, Start(next), Split(s, '\n')).table.body;
      var n := NormalizeBody(body);
      forall r, c | r in n && c in r.cells ensures !c.removed {
        var rb :| 0 <= rb < |n| && n[rb] == r;
        NormalizeKeeps(body, rb, c);
      }
    }
  }

  /** The counter after a parse: the next uid a later draw would take. */
  function ParseCounter(s: string, next: Uid): Uid {
    if |s| == 0 then next + 2 else Run(CellOf, Start(next), Split(s, '\n')).next
  }

  /** Every uid of a parsed document is drawn in this parse: none is below the
      starting counter and none reaches the final one. */
  lemma ParsedUidsDrawn(s: string, next: Uid)
    ensures next + 2 <= ParseCounter(s, next)
    ensures UidsIn(Parse(s, next), next, ParseCounter(s, next))
  {
    assert UidsIn(InitialStructure(next), next, next + 2);
    if |s| > 0 {
      CellOfTakesUid();
      RunKeepsUidsIn(CellOf, Start(next), Split(s, '\n'), next);
      var e := Run(CellOf, Start(next), Split(s, '\n'));
      NormalizeKeepsUidsIn(e.table, next, e.next);
    }
  }

  /** The normaliser only drops cells, so it draws no uid. */
  lemma NormalizeKeepsUidsIn(t: Table, lo: Uid, hi: Uid)
    requires UidsIn(t, lo, hi)
    ensures UidsIn(NormalizeTable(t), lo, hi)
  {
    var n := NormalizeBody(t.body);
    forall r | r in n ensures RowIn(r, lo, hi) {
      var rb :| 0 <= rb < |n| && n[rb] == r;
      assert RowIn(t.body[rb], lo, hi);
      forall c | c in r.cells ensures lo <= c.uid < hi {
        NormalizeKeeps(t.body, rb, c);
      }
    }
  }
}
