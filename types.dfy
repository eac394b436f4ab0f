/** The table document: a table with an optional header row, body rows and an
    optional footer row, each row an ordered sequence of cells. */
module Types {
  import opened Wrappers
  import opened Strings
  import opened StringFacts

  /** Row and cell identifiers. The source draws them from nanoid; here they are
      drawn from a counter supplied by the caller, so "fresh" means "not drawn before". */
  type Uid = nat

  /** A JavaScript number as the engine produces it: an integer or NaN
      (`parseInt` of text without leading digits). Integers are unbounded here;
      `SafeInteger` marks the ones a JavaScript number holds exactly. */
  datatype NumberValue = Int(value: int) | NaN

  /** A span attribute. The attribute block coerces numeric text to a number and
      keeps anything else as text; a tag attribute `colSpan="…"` is always text. */
  datatype SpanValue = SpanNum(n: int) | SpanStr(s: string)

  /** A cell as the JavaScript object the code builds. `kind` is the `type` field;
      `props` holds every other string-valued field (`value`, `text`, `href`,
      `newTab`, `url`, `action`, `targetId`, `variant`, `align`, and any other key a
      tag carries); a field that is missing reads as "". The boolean `newTab` the
      editor writes is stored as "true" or "", which every reader treats alike.
      `removed` is the truthiness of `_removedDueToRowSpan`. */
  datatype Cell = Cell(
    uid: Uid,
    kind: string,
    props: map<string, string>,
    colSpan: Option<SpanValue>,
    rowSpan: Option<SpanValue>,
    textAlign: Option<string>,
    removed: bool)

  datatype Row = Row(uid: Uid, cells: seq<Cell>)

  datatype Table = Table(
    name: string,
    cols: NumberValue,
    showSerialIndex: bool,
    header: Option<Row>,
    body: seq<Row>,
    footer: Option<Row>)

  /** The declared cell union: exactly one of text, link or button. A cell whose
      `type` is anything else (a tag can set it) is `OtherView`. */
  datatype CellView =
    | TextView(value: string)
    | LinkView(text: string, href: string, newTab: string)
    | ButtonView(text: string, url: string, action: string, targetId: string, variant: string)
    | OtherView(kind: string)

  /** A string field of a cell, "" when it is missing. */
  function Prop(c: Cell, key: string): string {
    if key in c.props then c.props[key] else ""
  }

  function Get(m: map<string, string>, key: string): string {
    if key in m then m[key] else ""
  }

  /** What a cell shows, as the union of the type declarations sees it. */
  function View(c: Cell): (v: CellView)
    ensures v.TextView? <==> c.kind == "text"
    ensures v.LinkView? <==> c.kind == "link"
    ensures v.ButtonView? <==> c.kind == "button"
    ensures v.OtherView? ==> v.kind == c.kind
  {
    if c.kind == "text" then TextView(Prop(c, "value"))
    else if c.kind == "link" then LinkView(Prop(c, "text"), Prop(c, "href"), Prop(c, "newTab"))
    else if c.kind == "button" then
      ButtonView(Prop(c, "text"), Prop(c, "url"), Prop(c, "action"), Prop(c, "targetId"), Prop(c, "variant"))
    else OtherView(c.kind)
  }

  /** The number of columns or rows a span stands for where the code computes
      `span || 1` and counts `i < span`, and where it tests `span && span > 1`:
      a missing, zero or empty span is 1; numeric text counts as its number; text
      that is not a number counts 0; a negative number counts 0. The test
      `span && span > 1` holds exactly when this count is above 1. */
  function SpanCount(v: Option<SpanValue>): nat {
    match v
    case None => 1
    case Some(SpanNum(n)) => if n == 0 then 1 else if n < 0 then 0 else n
    case Some(SpanStr(s)) =>
      if s == "" then 1
      else match ToNumber(s)
        case None => 0
        case Some(n) => if n < 0 then 0 else n
  }

  /** The iteration bound of a loop `for (c = 0; c < cols; c++)`: NaN and negative
      counts run no iteration. */
  function ColumnBound(cols: NumberValue): nat {
    match cols
    case NaN => 0
    case Int(n) => if n < 0 then 0 else n
  }

  /** The document a parse starts from: header and footer present with no cells. */
  function InitialStructure(next: Uid): Table {
    Table("", Int(0), false, Some(Row(next, [])), [], Some(Row(next + 1, [])))
  }

  /** The cells of a row the normaliser has not flagged. */
  function Visible(cells: seq<Cell>): (r: seq<Cell>)
    ensures |r| <= |cells|
    ensures forall k :: 0 <= k < |r| ==> !r[k].removed && r[k] in cells
    ensures forall c :: c in cells && !c.removed ==> c in r
  {
    if cells == [] then []
    else (if cells[0].removed then [] else [cells[0]]) + Visible(cells[1..])
  }

  /** An empty text cell, as the editor creates it. */
  function EmptyTextCell(uid: Uid): Cell {
    Cell(uid, "text", map["value" := ""], None, None, None, false)
  }
}
