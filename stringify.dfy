/** Writing a table back as text: `#table`, the three configuration lines, the
    header, body and footer blocks, `#endtable`, joined with newlines. */
module Stringify {
  import opened Wrappers
  import opened Strings
  import opened StringFacts
  import opened Types

  // ---------------------------------------------------------------- values

  /** `${n}` for a number: its decimal text, or `NaN` (exact for safe integers, see
      `IntToString`). */
  function ShowNumber(v: NumberValue): string {
    match v
    case Int(n) => IntToString(n)
    case NaN => "NaN"
  }

  /** `${b}` for a boolean. */
  function ShowBool(b: bool): string {
    if b then "true" else "false"
  }

  /** `${span}` for a span: a number in decimal, text as it is. */
  function ShowSpan(v: SpanValue): string {
    match v
    case SpanNum(n) => IntToString(n)
    case SpanStr(s) => s
  }

  // ---------------------------------------------------------------- one cell

  /** The fields a link tag writes, in the order it writes them. */
  const LinkKeys: seq<string> := ["text", "href", "newTab"]

  /** The fields a button tag writes, in the order it writes them. */
  const ButtonKeys: seq<string> := ["text", "url", "action", "targetId", "variant"]

  /** One tag attribute, `key="value"`. */
  function Quoted(key: string, value: string): string {
    key + "=\"" + value + "\""
  }

  /** `if (cell.key) attrs.push(key="value")`: the attribute of one field, when
      its value is not empty. */
  function TagPair(c: Cell, key: string): seq<string> {
    if Prop(c, key) != "" then [Quoted(key, Prop(c, key))] else []
  }

  /** The attributes of a tag: one per listed field whose value is not empty. */
  function TagPairs(c: Cell, keys: seq<string>): (r: seq<string>)
    ensures |r| <= |keys|
  {
    if keys == [] then [] else TagPair(c, keys[0]) + TagPairs(c, keys[1..])
  }

  /** The content of a cell: a text cell's value, a tag for a link or a button,
      nothing for any other type. */
  function Content(c: Cell): string {
    if c.kind == "text" then Prop(c, "value")
    else if c.kind == "link" then "[link " + Join(TagPairs(c, LinkKeys), " ") + "]"
    else if c.kind == "button" then "[button " + Join(TagPairs(c, ButtonKeys), " ") + "]"
    else ""
  }

  /** `name=span` when the span is above 1, nothing otherwise. */
  function SpanAttr(name: string, v: Option<SpanValue>): seq<string> {
    if SpanCount(v) > 1 then [name + "=" + ShowSpan(v.value)] else []
  }

  /** The block attributes of a cell: column span, then row span. */
  function SpanAttrs(c: Cell): seq<string> {
    SpanAttr("colSpan", c.colSpan) + SpanAttr("rowSpan", c.rowSpan)
  }

  /** The text of a cell: its content, followed by `{…}` when it has a span above 1. */
  function CellText(c: Cell): string {
    var a := SpanAttrs(c);
    Content(c) + (if a == [] then "" else "{" + Join(a, ", ") + "}")
  }

  /** The cell formatter as the source runs it: attribute lists built by pushes. */
  method FormatCell(cell: Cell) returns (cellContent: string)
    ensures cellContent == CellText(cell)
  {
    cellContent := FormatContent(cell);
    var attributes: seq<string> := [];
    if SpanCount(cell.colSpan) > 1 {
      assert "colSpan" + "=" == "colSpan=";
      attributes := attributes + ["colSpan=" + ShowSpan(cell.colSpan.value)];
    }
    if SpanCount(cell.rowSpan) > 1 {
      assert "rowSpan" + "=" == "rowSpan=";
      attributes := attributes + ["rowSpan=" + ShowSpan(cell.rowSpan.value)];
    }
    assert attributes == SpanAttrs(cell);
    CellTextParts(cell);
    if |attributes| > 0 {
      cellContent := cellContent + "{" + Join(attributes, ", ") + "}";
    }
  }

  /** The first half of the cell formatter: the content by cell type. */
  method FormatContent(cell: Cell) returns (cellContent: string)
    ensures cellContent == Content(cell)
  {
    cellContent := "";
    if cell.kind == "text" {
      cellContent := Prop(cell, "value");
    } else if cell.kind == "link" {
      var attrs: seq<string> := [];
      attrs := attrs + TagPair(cell, "text");
      attrs := attrs + TagPair(cell, "href");
      attrs := attrs + TagPair(cell, "newTab");
      LinkPairs(cell);
      cellContent := "[link " + Join(attrs, " ") + "]";
    } else if cell.kind == "button" {
      var attrs: seq<string> := [];
      attrs := attrs + TagPair(cell, "text");
      attrs := attrs + TagPair(cell, "url");
      attrs := attrs + TagPair(cell, "action");
      attrs := attrs + TagPair(cell, "targetId");
      attrs := attrs + TagPair(cell, "variant");
      ButtonPairs(cell);
      cellContent := "[button " + Join(attrs, " ") + "]";
    }
  }

  lemma CellTextParts(c: Cell)
    ensures SpanAttrs(c) == [] ==> CellText(c) == Content(c)
    ensures SpanAttrs(c) != [] ==> CellText(c) == Content(c) + "{" + Join(SpanAttrs(c), ", ") + "}"
  {
  }

  /** The link attributes, field by field. */
  lemma LinkPairs(c: Cell)
    ensures TagPairs(c, LinkKeys) == [] + TagPair(c, "text") + TagPair(c, "href") + TagPair(c, "newTab")
  {
    var k := LinkKeys;
    assert k[1..][1..][1..] == [];
    calc {
      TagPairs(c, k);
      TagPair(c, k[0]) + TagPairs(c, k[1..]);
      TagPair(c, k[0]) + (TagPair(c, k[1..][0]) + TagPairs(c, k[1..][1..]));
      TagPair(c, k[0]) + (TagPair(c, k[1..][0]) + (TagPair(c, k[1..][1..][0]) + []));
    }
    assert k[0] == "text" && k[1..][0] == "href" && k[1..][1..][0] == "newTab";
  }

  /** The button attributes, field by field. */
  lemma ButtonPairs(c: Cell)
    ensures TagPairs(c, ButtonKeys)
         == [] + TagPair(c, "text") + TagPair(c, "url") + TagPair(c, "action")
          + TagPair(c, "targetId") + TagPair(c, "variant")
  {
    var k := ButtonKeys;
    var k1, k2, k3, k4 := k[1..], k[2..], k[3..], k[4..];
    assert k1[1..] == k2 && k2[1..] == k3 && k3[1..] == k4 && k4[1..] == [];
    calc {
      TagPairs(c, k);
      TagPair(c, k[0]) + TagPairs(c, k1);
      TagPair(c, k[0]) + (TagPair(c, k1[0]) + TagPairs(c, k2));
      TagPair(c, k[0]) + (TagPair(c, k1[0]) + (TagPair(c, k2[0]) + TagPairs(c, k3)));
      TagPair(c, k[0]) + (TagPair(c, k1[0]) + (TagPair(c, k2[0]) + (TagPair(c, k3[0]) + TagPairs(c, k4))));
      TagPair(c, k[0]) + (TagPair(c, k1[0]) + (TagPair(c, k2[0]) + (TagPair(c, k3[0]) + (TagPair(c, k4[0]) + []))));
    }
    assert k[0] == "text" && k1[0] == "url" && k2[0] == "action" && k3[0] == "targetId" && k4[0] == "variant";
  }

  // ---------------------------------------------------------------- rows and the table

  /** `xs.map(f)` for a formatter `f`. */
  function Texts<T>(f: T -> string, xs: seq<T>): (r: seq<string>)
    ensures |r| == |xs|
  {
    seq(|xs|, k requires 0 <= k < |xs| => f(xs[k]))
  }

  /** Mapping one more element adds its text at the end. */
  lemma TextsSnoc<T>(f: T -> string, xs: seq<T>, i: nat)
    requires i < |xs|
    ensures Texts(f, xs[..i + 1]) == Texts(f, xs[..i]) + [f(xs[i])]
  {
  }

  /** The texts of the cells of a row, in order. */
  function CellTexts(cells: seq<Cell>): (r: seq<string>)
    ensures |r| == |cells|
  {
    Texts(CellText, cells)
  }

  /** A row line: the cell texts joined with ` | `. */
  function RowText(cells: seq<Cell>): string {
    Join(CellTexts(cells), " | ")
  }

  /** `row && row.cells.length > 0`. */
  predicate HasCells(r: Option<Row>) {
    r.Some? && |r.value.cells| > 0
  }

  /** The start marker and the three configuration lines, then a blank line. */
  function Preamble(t: Table): seq<string> {
    ["#table", "name: " + t.name, "cols: " + ShowNumber(t.cols),
     "showSerialIndex: " + ShowBool(t.showSerialIndex), ""]
  }

  /** A header or footer block: marker, the row, blank line; nothing for a missing
      or empty row. */
  function EdgeBlock(marker: string, r: Option<Row>): seq<string> {
    if HasCells(r) then [marker, RowText(r.value.cells), ""] else []
  }

  /** One line per body row, holding only the cells the normaliser did not flag. */
  function BodyLines(rows: seq<Row>): (r: seq<string>)
    ensures |r| == |rows|
  {
    Texts(BodyLine, rows)
  }

  /** The line of one body row: its cells without those the normaliser flagged. */
  function BodyLine(row: Row): string {
    RowText(Visible(row.cells))
  }

  /** The body block: marker, the row lines, blank line; nothing for an empty body. */
  function BodyBlock(rows: seq<Row>): seq<string> {
    if |rows| > 0 then ["[body]"] + BodyLines(rows) + [""] else []
  }

  /** Every line of the text of a table, in order. */
  function Lines(t: Table): seq<string> {
    Preamble(t) + EdgeBlock("[header]", t.header) + BodyBlock(t.body)
    + EdgeBlock("[footer]", t.footer) + ["#endtable"]
  }

  /** The text of a table. */
  function Stringify(t: Table): string {
    Join(Lines(t), "\n")
  }

  /** The serialiser as the source runs it: lines pushed one by one, section by
      section. */
  method StringifyTable(table: Table) returns (s: string)
    ensures s == Stringify(table)
  {
    var lines: seq<string> := [];
    lines := lines + ["#table"];
    lines := lines + ["name: " + table.name];
    lines := lines + ["cols: " + ShowNumber(table.cols)];
    lines := lines + ["showSerialIndex: " + ShowBool(table.showSerialIndex)];
    lines := lines + [""];
    assert lines == Preamble(table);
    lines := PushEdge(lines, "[header]", table.header);
    ghost var head := lines;
    lines := PushBody(lines, table.body);
    ghost var middle := lines;
    lines := PushEdge(lines, "[footer]", table.footer);
    lines := lines + ["#endtable"];
    LinesAssembled(table, head, middle, lines);
    s := Join(lines, "\n");
  }

  /** The header or footer section: pushed only when the row has cells. */
  method PushEdge(lines: seq<string>, marker: string, row: Option<Row>) returns (out: seq<string>)
    ensures out == lines + EdgeBlock(marker, row)
  {
    out := lines;
    if row.Some? && |row.value.cells| > 0 {
      out := out + [marker];
      out := out + [RowText(row.value.cells)];
      out := out + [""];
    }
  }

  /** The body section: pushed only when there are rows, one line per row. */
  method PushBody(lines: seq<string>, rows: seq<Row>) returns (out: seq<string>)
    ensures out == lines + BodyBlock(rows)
  {
    out := lines;
    if |rows| > 0 {
      out := out + ["[body]"];
      for i := 0 to |rows|
        invariant out == lines + ["[body]"] + Texts(BodyLine, rows[..i])
      {
        var visibleCells := Visible(rows[i].cells);
        TextsSnoc(BodyLine, rows, i);
        out := out + [RowText(visibleCells)];
      }
      assert rows[..|rows|] == rows;
      out := out + [""];
      BodyBlockParts(rows);
    }
  }

  lemma BodyBlockParts(rows: seq<Row>)
    requires |rows| > 0
    ensures BodyBlock(rows) == ["[body]"] + BodyLines(rows) + [""]
  {
  }

  lemma LinesAssembled(t: Table, head: seq<string>, middle: seq<string>, lines: seq<string>)
    requires head == Preamble(t) + EdgeBlock("[header]", t.header)
    requires middle == head + BodyBlock(t.body)
    requires lines == middle + EdgeBlock("[footer]", t.footer) + ["#endtable"]
    ensures lines == Lines(t)
  {
  }

  // ---------------------------------------------------------------- properties

  /** The text starts with the start marker and the configuration lines, and ends
      with the end marker; it has one line per body row plus a fixed frame. */
  lemma LinesFrame(t: Table)
    ensures var l := Lines(t);
            l[..5] == Preamble(t) && l[|l| - 1] == "#endtable"
            && |l| == 6 + (if HasCells(t.header) then 3 else 0)
                        + (if |t.body| > 0 then |t.body| + 2 else 0)
                        + (if HasCells(t.footer) then 3 else 0)
  {
  }

  /** A body row whose cells are all flagged still gets its (empty) line. */
  lemma FlaggedRowWritesEmptyLine(rows: seq<Row>, k: nat)
    requires k < |rows|
    requires forall j :: 0 <= j < |rows[k].cells| ==> rows[k].cells[j].removed
    ensures BodyBlock(rows)[k + 1] == ""
  {
    NoneVisible(rows[k].cells);
    assert BodyBlock(rows)[k + 1] == BodyLines(rows)[k] == BodyLine(rows[k]);
    assert CellTexts([]) == [];
  }

  lemma {:induction false} NoneVisible(cells: seq<Cell>)
    requires forall j :: 0 <= j < |cells| ==> cells[j].removed
    ensures Visible(cells) == []
  {
    if cells != [] {
      NoneVisible(cells[1..]);
    }
  }

  /** A cell gets an attribute block exactly when one of its spans is above 1
      (provided its content holds no brace of its own). */
  lemma BlockIffSpan(c: Cell)
    requires '{' !in Content(c)
    ensures '{' in CellText(c) <==> SpanCount(c.colSpan) > 1 || SpanCount(c.rowSpan) > 1
  {
    var a := SpanAttrs(c);
    if a != [] {
      assert CellText(c)[|Content(c)|] == '{';
    } else {
      assert CellText(c) == Content(c);
    }
  }
}
