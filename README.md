# Structured tables (STL) — a verified model of the engine

The STL engine converts between a line-based table text and an in-memory table
document:

- **Document.** A document has a name, a column count, a serial-index switch, an
  optional header row, body rows and an optional footer row. Every row and cell has
  a uid.
- **Parser.** It reads the text line by line:
  - configuration lines first;
  - then `[header]`, `[body]` and `[footer]` sections whose data lines are rows
    split on `|`.

  Each raw cell may carry:
  - an attribute block `{colSpan=2, …}`, read against an allow-list;
  - a `[link …]` or `[button …]` tag whose `key="value"` pairs become fields.

  After the loop, a row-span normaliser flags the body cells that an earlier cell's
  `rowSpan` reaches down over, and filters them out.
- **Serialiser.** It writes the canonical text back:
  - fixed preamble and section order;
  - only the non-empty tag attributes;
  - a trailing span block only for spans above 1.
- **Visual editor.** It edits the document with copy-and-update transforms: add,
  delete or move rows and columns, delete a cell, change a cell's type, toggle
  header and footer. It computes a display mask (`markSpans`).
- **Small pieces beside the engine:**
  - a renderer registry;
  - the command-line helpers that split a `name@version` argument and build the
    package manager's install command.

## How the model is organised

- **Seqs, Strings, StringFacts.** Generic sequence lemmas, and the string
  operations the engine uses: `trim`, `split`, `join`, `parseInt` and `Number` on
  decimal integers. They come with their facts (split/join round trips, trimming,
  integer text round trips).
- **Types.** The document (`Table`, `Row`, `Cell`) and the cell union as its
  declarations see it (`CellView`).
  - A `Cell` keeps every string field the code may set, in a map, because tag
    attributes are copied verbatim under any key.
  - Identifiers are naturals drawn from a counter supplied by the caller.
- **Regex.** One hand-written recogniser per pattern the parser uses. Each is
  proved to find the leftmost match with JavaScript's greedy and lazy semantics.
- **ParseAttributes, ParseCell, Normalize, ParseTable.** The parser:
  - Every loop of the source is a method.
  - Each method is proved equal to a recursive or closed-form specification
    function, and the properties are lemmas about those functions.
  - The line loop is generic over the cell parser, and is instantiated with the
    real one.
- **Stringify, CellRoundTrip.** The serialiser, written as methods that push
  lines and attributes, and the read-back of the tag attributes it writes.
- **Editor, Move, MarkSpans.** The bodies of the editor's state updaters.
  - The pure copy-and-update transforms are functions.
  - Moving a row or a column, and `markSpans`, are methods with loops proved
    against specification functions.
- **BlockRoundTrip, CellReadBack, RowReadBack, TableReadBack.** The round trip
  from the serialiser back through the parser, built up in layers:
  - one span block, then one cell's text;
  - one row line, then the whole document.

  It holds for *writable* documents (see Left out), and "reads back" means the same
  view of each cell, its spans as the serialiser keeps them, no alignment and no
  flag.
- **Render.** The registry is a class whose one field is the module-level store.
- **RendererArg, InstallCommand.** The two command-line helpers.

## Model

| member | source | states |
|---|---|---|
| Regex.WsEnd | packages/structured-table/src/core/regex/regex.ts:5 | `\s*` takes the whole run of white space and stops at a non-space |
| Regex.WordEnd | packages/structured-table/src/core/regex/regex.ts:5 | `\w+` takes the whole run of word characters |
| Regex.CommaEnd | packages/structured-table/src/core/regex/regex.ts:5 | `[^,]+` runs to the next comma or the end |
| Regex.LazyEnd | packages/structured-table/src/core/regex/regex.ts:1-5 | `(.*?)x` closes at the first `x` after the start, holds no line terminator, and fails only if no such `x` exists |
| Regex.LazyEndIff | packages/structured-table/src/core/regex/regex.ts:1-5 | the lazy group closes at `j` exactly when `j` is the first admissible stop |
| Regex.BraceAt | packages/structured-table/src/core/regex/regex.ts:4 | the brace pattern tried at one position matches exactly the first `}` after a `{` |
| Regex.FindBrace | packages/structured-table/src/core/regex/regex.ts:4 | a found block is a brace match at or after the start |
| Regex.FindBraceLeftmost | packages/structured-table/src/core/regex/regex.ts:4 | the block found is the leftmost one; when none is found no position matches |
| Regex.CtaAt | packages/structured-table/src/core/regex/regex.ts:1 | `[button` or `[link` then a lazy body to the first `]`; no other match at that position |
| Regex.FindCta | packages/structured-table/src/core/regex/regex.ts:1 | a found tag is a tag match at or after the start |
| Regex.FindCtaLeftmost | packages/structured-table/src/core/regex/regex.ts:1 | the tag found is the leftmost one; when none is found there is none |
| Regex.AttrAt | packages/structured-table/src/core/regex/regex.ts:2 | `(\w+)="(.*?)"` tried at one position: a word key, `="`, a value to the next `"`; unquoted values never match |
| Regex.WordEndOfWordRun | packages/structured-table/src/core/regex/regex.ts:2 | a word run ended by a non-word character is the greedy run |
| Regex.NextAttr | packages/structured-table/src/core/regex/regex.ts:2 | `exec` from the scan position returns an attribute match at or after it |
| Regex.NextAttrLeftmost | packages/structured-table/src/core/regex/regex.ts:2 | that match is the leftmost; when none is found none exists |
| Regex.PairAt | packages/structured-table/src/core/regex/regex.ts:5 | a block pair has a non-empty word key and a non-empty value ending where the match ends |
| Regex.NextPair | packages/structured-table/src/core/regex/regex.ts:5 | `exec` from the scan position returns the pair matched at the position it reports |
| Regex.NextPairLeftmost | packages/structured-table/src/core/regex/regex.ts:5 | no position before the reported one matches |
| ParseAttributes.Coerce | packages/structured-table/src/core/parser/parse-table.ts:70-77 | text `Number` accepts becomes exactly that number, and only such text does; text it rejects stays the text it was |
| ParseAttributes.IndexOfSub | packages/structured-table/src/core/parser/parse-table.ts:46 | `replace` with a string pattern finds its first occurrence: it occurs there and nowhere earlier |
| ParseAttributes.ReplaceCutsMatch | packages/structured-table/src/core/parser/parse-table.ts:42-46 | replacing the block's text cuts out the regex match itself, since the match is leftmost |
| ParseAttributes.BlockOf | packages/structured-table/src/core/parser/parse-table.ts:36-43 | the block is the first brace group, when its body is non-empty; later groups are never tried |
| ParseAttributes.ParseSpecificAttributes | packages/structured-table/src/core/parser/parse-table.ts:35-85 | the block reader returns the attributes of the first brace group, when its body is non-empty, and the text with that group cut out and re-trimmed |
| ParseAttributes.ReadPairs | packages/structured-table/src/core/parser/parse-table.ts:48-81 | the pair loop, started at 0, assigns allow-listed keys with quotes stripped and spans coerced |
| ParseAttributes.NoBlockParts | packages/structured-table/src/core/parser/parse-table.ts:36-41 | with no brace group, or a first brace group with an empty body whatever follows it (`{} {colSpan=2}` included), there are no attributes and the text is unchanged |
| ParseAttributes.FirstGroupIsBlock | packages/structured-table/src/core/parser/parse-table.ts:41-43 | proof step of `ParseSpecificAttributes`: the first brace group, when its body is non-empty, is the block |
| ParseAttributes.BlockParts | packages/structured-table/src/core/parser/parse-table.ts:41-46 | the attributes come from the block's body, and the text is the cell with the block cut out |
| ParseCell.CollectTagAttributes | packages/structured-table/src/core/parser/parse-table.ts:176-185 | the tag loop builds `{type: tag}` plus every `key="value"` pair, later pairs overwriting earlier ones |
| ParseCell.ParseCell | packages/structured-table/src/core/parser/parse-table.ts:167-201 | one raw cell becomes the cell of its cleaned text, with its block attributes and the uid it draws |
| ParseCell.CellOfText | packages/structured-table/src/core/parser/parse-table.ts:173-201 | the tag-or-text step of a cell |
| ParseCell.TextCellOfNoMatch | packages/structured-table/src/core/parser/parse-table.ts:195-201 | proof step of `CellOfText`: without a tag the cell is a text cell |
| ParseCell.TagCellOfMatch | packages/structured-table/src/core/parser/parse-table.ts:173-191 | proof step of `CellOfText`: with a tag the cell is built from the tag object of the leftmost tag |
| ParseCell.CellTakesFreshUidAndBlockSpans | packages/structured-table/src/core/parser/parse-table.ts:187-201 | the drawn uid and any block span or alignment win over tag fields of the same name |
| ParseCell.PlainTextCell | packages/structured-table/src/core/parser/parse-table.ts:196-201 | a cell without a tag shows its cleaned text and is not flagged |
| ParseCell.CtaOfSlice | packages/structured-table/src/core/regex/regex.ts:1 | a tag cut out of its text is the leftmost tag of the cut-out text |
| ParseCell.CtaMatchUnique | packages/structured-table/src/core/regex/regex.ts:1 | one position admits at most one tag match |
| ParseCell.TextAroundTagDropped | packages/structured-table/src/core/parser/parse-table.ts:173-191 | text before and after the tag plays no part in the cell |
| ParseCell.TagBodyOfSlice | packages/structured-table/src/core/parser/parse-table.ts:176 | the trimmed tag body read from the cut-out tag is the one read in place |
| ParseCell.TagTextOfSlice | packages/structured-table/src/core/parser/parse-table.ts:176 | the untrimmed tag body likewise |
| Normalize.Mark | packages/structured-table/src/core/parser/parse-table.ts:105-107 | raising the flag changes only the flag, and never lowers it |
| Normalize.Flagged | packages/structured-table/src/core/parser/parse-table.ts:91-111 | flagging keeps the number of cells of a row |
| Normalize.NormalizeBody | packages/structured-table/src/core/parser/parse-table.ts:88-117 | normalising keeps the number of rows and their uids |
| Normalize.FlagCell | packages/structured-table/src/core/parser/parse-table.ts:101-107 | flagging one cell keeps the number of rows |
| Normalize.NormalizeRowSpan | packages/structured-table/src/core/parser/parse-table.ts:88-117 | the in-place loops followed by the filter compute the closed form: only the body changes |
| Normalize.FlagCoveredCells | packages/structured-table/src/core/parser/parse-table.ts:91-111 | after the loops every row carries exactly the flags of the closed form |
| Normalize.FlagBelow | packages/structured-table/src/core/parser/parse-table.ts:97-109 | one cell's loop flags the cells at its index in the rows it reaches, stopping at the last row |
| NormalizeProperties.SpanFlagsSameIndexBelow | packages/structured-table/src/core/parser/parse-table.ts:97-107 | a cell spanning N rows flags the cell at its own index in each of the next N-1 rows that have one |
| NormalizeProperties.NormalizeKeeps | packages/structured-table/src/core/parser/parse-table.ts:88-117 | a cell survives exactly when it was not flagged and no earlier row's cell reaches over its index |
| NormalizeProperties.CoveredCellDropped | packages/structured-table/src/core/parser/parse-table.ts:105-116 | a covered cell is gone from its row |
| NormalizeProperties.RowUntouched | packages/structured-table/src/core/parser/parse-table.ts:88-117 | a row with nothing flagged or covered is unchanged |
| NormalizeProperties.RowCleared | packages/structured-table/src/core/parser/parse-table.ts:88-117 | a row whose every index is covered comes out empty |
| NormalizeProperties.NoRowSpanNoChange | packages/structured-table/src/core/parser/parse-table.ts:88-117 | without row spans above 1 and flags, the body is unchanged |
| NormalizeProperties.DocExampleLosesCells | packages/structured-table/src/core/parser/parse-table.ts:105-107 | the documented spanning example loses "Monitor" and "Table", which are real cells at the covered index |
| NormalizeProperties.DocExampleKeptByColumns | apps/web/src/app/docs/stl-syntax/spanning/page.tsx:45-49 | counted by column, as the documentation intends, the same example keeps every written cell: the editor's `markSpans` mask leaves all four rows as written |
| NormalizeProperties.DocOccupied | apps/web/src/components/table-editor/visual-editor.tsx:365-405 | the example's two row spans cover exactly the first column of the row below each |
| NormalizeProperties.NotIdempotent | packages/structured-table/src/core/parser/parse-table.ts:88-117 | normalising twice removes a cell that one run keeps |
| ParseTable.CellsOf | packages/structured-table/src/core/parser/parse-table.ts:167-202 | one cell per raw cell |
| ParseTable.ParseTableString | packages/structured-table/src/core/parser/parse-table.ts:120-214 | the parser as written computes the specification `Parse` |
| ParseTable.ParseTableWith | packages/structured-table/src/core/parser/parse-table.ts:120-214 | split into lines, the loop, then the normaliser; empty input returns the initial document |
| ParseTable.ReadLines | packages/structured-table/src/core/parser/parse-table.ts:129-211 | the loop over lines is the fold `Run` |
| ParseTable.ReadLine | packages/structured-table/src/core/parser/parse-table.ts:130-210 | one pass of the loop body is `StepLine` |
| ParseTable.ParseRowCells | packages/structured-table/src/core/parser/parse-table.ts:161-202 | the cells of a line are the raw cells split on `|`, parsed in order |
| ParseTable.CellOfTakesUid | packages/structured-table/src/core/parser/parse-table.ts:187-201 | the real cell parser gives each cell the uid it draws |
| ParseTable.RowCellCount | packages/structured-table/src/core/parser/parse-table.ts:161-202 | a data line yields one more cell than it has `|` characters |
| ParseTable.RowUidsFresh | packages/structured-table/src/core/parser/parse-table.ts:162-191 | a row draws one uid, then each cell the next in order |
| ParseTable.StepKeepsUidsIn | packages/structured-table/src/core/parser/parse-table.ts:129-210 | a line draws uids only upwards from the counter |
| ParseTable.RunKeepsUidsIn | packages/structured-table/src/core/parser/parse-table.ts:129-211 | the whole loop keeps every uid in the range drawn |
| ParseTable.ParsedUidsDrawn | packages/structured-table/src/core/parser/parse-table.ts:120-214 | every uid of a parsed document was drawn during this parse |
| ParseTable.NormalizeKeepsUidsIn | packages/structured-table/src/core/parser/parse-table.ts:212 | the normaliser draws no uid |
| ParseTable.ConfigFixedAfterSections | packages/structured-table/src/core/parser/parse-table.ts:148-157 | after the first section marker, name, cols and showSerialIndex never change |
| ParseTable.StepKeepsConfig | packages/structured-table/src/core/parser/parse-table.ts:133-157 | proof step of `ConfigFixedAfterSections`: inside a section a line keeps the configuration fields |
| ParseTable.BodyOnlyGrows | packages/structured-table/src/core/parser/parse-table.ts:204-210 | body rows once read are kept; later lines only append |
| ParseTable.StepBody | packages/structured-table/src/core/parser/parse-table.ts:204-210 | a step keeps the body or appends one row |
| ParseTable.ConfigLineKeepsRows | packages/structured-table/src/core/parser/parse-table.ts:148-157 | proof step of `StepBody`: a configuration line changes no row |
| ParseTable.LastHeaderLineWins | packages/structured-table/src/core/parser/parse-table.ts:204-207 | two header data lines leave only the second as the header |
| ParseTable.HeaderLine | packages/structured-table/src/core/parser/parse-table.ts:204-207 | proof step of `LastHeaderLineWins`: a header data line replaces the header row |
| ParseTable.CarriageReturnIgnored | packages/structured-table/src/core/parser/parse-table.ts:130 | a trailing `\r` makes no difference |
| ParseTable.QuietLinesKeepState | packages/structured-table/src/core/parser/parse-table.ts:130-131 | blank and comment lines are skipped in every state |
| ParseTable.QuietTextIsInitial | packages/structured-table/src/core/parser/parse-table.ts:121-131 | a text of only blank and comment lines parses to the initial document, header and footer present and empty |
| ParseTable.ParsedBodyHasNoRemovedCell | packages/structured-table/src/core/parser/parse-table.ts:212 | no body cell of a parsed document is still flagged |
| Types.View | packages/structured-table/src/core/types/index.ts:48-74 | the cell union: text, link or button by the type field, anything else apart |
| Types.Visible | packages/structured-table/src/core/types/index.ts:41-42 | the cells without the normaliser's flag, and all of them |
| Stringify.TagPairs | packages/structured-table/src/core/parser/stringify-table.ts:73-85 | at most one attribute per listed field |
| Stringify.FormatCell | packages/structured-table/src/core/parser/stringify-table.ts:65-108 | the cell formatter as written computes `CellText` |
| Stringify.FormatContent | packages/structured-table/src/core/parser/stringify-table.ts:66-87 | the content by type, computed by pushes |
| Stringify.CellTextParts | packages/structured-table/src/core/parser/stringify-table.ts:89-105 | the block is added exactly when there is a span attribute |
| Stringify.LinkPairs | packages/structured-table/src/core/parser/stringify-table.ts:72-77 | link attributes in the order text, href, newTab, each only when non-empty |
| Stringify.ButtonPairs | packages/structured-table/src/core/parser/stringify-table.ts:79-86 | button attributes in the order text, url, action, targetId, variant |
| Stringify.CellTexts | packages/structured-table/src/core/parser/stringify-table.ts:58-60 | one text per cell |
| Stringify.BodyLines | packages/structured-table/src/core/parser/stringify-table.ts:34-38 | one line per body row |
| Stringify.StringifyTable | packages/structured-table/src/core/parser/stringify-table.ts:12-53 | the serialiser as written computes `Stringify` |
| Stringify.PushEdge | packages/structured-table/src/core/parser/stringify-table.ts:25-29 | a header or footer block is pushed only for a row with cells |
| Stringify.PushBody | packages/structured-table/src/core/parser/stringify-table.ts:32-40 | the body block is pushed only for a non-empty body |
| Stringify.LinesFrame | packages/structured-table/src/core/parser/stringify-table.ts:16-52 | the text starts with `#table` and the three configuration lines and a blank line, and ends with `#endtable` |
| Stringify.FlaggedRowWritesEmptyLine | packages/structured-table/src/core/parser/stringify-table.ts:34-38 | a body row whose cells are all flagged still writes an (empty) line |
| Stringify.BlockIffSpan | packages/structured-table/src/core/parser/stringify-table.ts:92-105 | a block is written exactly when a span is above 1 |
| CellRoundTrip.TagObjectOfPairs | packages/structured-table/src/core/parser/parse-table.ts:179-185 | reading back the attributes the serialiser wrote gives exactly the non-empty fields |
| CellRoundTrip.AddPropsGet | packages/structured-table/src/core/parser/stringify-table.ts:73-85 | the fields read back are the listed non-empty fields and nothing else |
| BlockRoundTrip.ReadBack | packages/structured-table/src/core/parser/stringify-table.ts:92-98 | a span the serialiser accepts (absent, or a number of at least 1) reads back with the same count: spans of 1 are not written and read back as absent |
| BlockRoundTrip.PairOfSpan | packages/structured-table/src/core/regex/regex.ts:5 | the pair pattern tried at a written `key=n` pair, or at the space before it, matches the key and exactly the digits of `n`, ending at the next comma or the end |
| BlockRoundTrip.OneSpanRead | packages/structured-table/src/core/parser/parse-table.ts:48-81 | a block holding one written span pair reads back as that one span, assigned as a number |
| BlockRoundTrip.TwoSpansRead | packages/structured-table/src/core/parser/stringify-table.ts:92-104 | the block body `colSpan=n, rowSpan=m` reads back as both spans, as numbers, and no alignment |
| BlockRoundTrip.SpanAttrsRead | packages/structured-table/src/core/parser/stringify-table.ts:90-105 | the span attributes written for a cell read back as the cell's spans as the serialiser keeps them, and no alignment |
| BlockRoundTrip.NoBraceNoBlock | packages/structured-table/src/core/parser/parse-table.ts:35-46 | a cell text without `{` has no attributes and is its own clean text |
| BlockRoundTrip.BlockAfterContent | packages/structured-table/src/core/parser/parse-table.ts:35-46 | brace-free content followed by one brace block: the attributes come from the block's body and the clean text is the trimmed content |
| CellReadBack.CellTextRead | packages/structured-table/src/core/parser/stringify-table.ts:65-108 | the text written for a writable cell reads back with the cell's spans as attributes and its content as the clean text |
| CellReadBack.TextContentRead | packages/structured-table/src/core/parser/parse-table.ts:195-201 | written plain text reads back as a text cell with the same view, the given attributes and uid, not flagged |
| CellReadBack.TagCellRead | packages/structured-table/src/core/parser/parse-table.ts:176-191 | the attributes written into a link or button tag build a cell with the same view as the written cell |
| CellReadBack.TagContentRead | packages/structured-table/src/core/parser/parse-table.ts:173-191 | a written link or button tag is found by the tag pattern and reads back as a cell with the same view |
| CellReadBack.ContentRead | packages/structured-table/src/core/parser/parse-table.ts:173-201 | the content written for any writable cell reads back with the same view, the given attributes and uid, not flagged |
| CellReadBack.NoBlockNoSpans | packages/structured-table/src/core/parser/stringify-table.ts:103-105 | a cell for which no span attribute is written has both spans read back as absent |
| CellReadBack.CellReadsBack | packages/structured-table/src/core/parser/parse-table.ts:167-201 | a raw cell that trims to a writable cell's text parses to a cell with the same view, the spans read back, no alignment, not flagged, and the uid drawn |
| RowReadBack.SplitOfRow | packages/structured-table/src/core/parser/stringify-table.ts:58-60 | texts without `|` joined by ` | ` split on `|` into as many pieces as texts, each trimming back to its text |
| RowReadBack.RowTextSplit | packages/structured-table/src/core/parser/stringify-table.ts:58-60 | the line written for a row of writable cells splits into one piece per cell, each trimming to that cell's text |
| RowReadBack.CellsReadBackWith | packages/structured-table/src/core/parser/parse-table.ts:167-202 | cell parsers that read back written cells turn those pieces into cells reading back as the originals, with consecutive uids |
| RowReadBack.RowReadsBackWith | packages/structured-table/src/core/parser/parse-table.ts:161-202 | a written row line read by such a cell parser gives one cell per written cell, each reading back, uids drawn in order |
| RowReadBack.RowReadsBack | packages/structured-table/src/core/parser/parse-table.ts:161-202 | with the real cell parser, a written row line reads back cell by cell, the row taking the first uid and cell k the uid after it plus k |
| TableReadBack.TextNotEmpty | packages/structured-table/src/core/parser/stringify-table.ts:16-52 | the written text is never empty, so the parser never takes its empty-input return |
| TableReadBack.LinesSplit | packages/structured-table/src/core/parser/stringify-table.ts:52 | splitting the written text on newlines gives back the pushed lines |
| TableReadBack.PreambleRead | packages/structured-table/src/core/parser/stringify-table.ts:16-22 | the `#table` line, the three configuration lines and the blank line read back as the initial document with the same name, column count and serial-index switch |
| TableReadBack.NameLineRead | packages/structured-table/src/core/parser/parse-table.ts:149-150 | a written `name:` line sets exactly the name |
| TableReadBack.ColsLineRead | packages/structured-table/src/core/parser/parse-table.ts:151-152 | a written `cols:` line sets exactly the column count, NaN included (the text is the one `${cols}` gives for a safe integer) |
| TableReadBack.SerialLineRead | packages/structured-table/src/core/parser/parse-table.ts:153-154 | a written `showSerialIndex:` line sets exactly the switch |
| TableReadBack.RowLineIsData | packages/structured-table/src/core/parser/parse-table.ts:130-161 | a written row line is trimmed, not blank, not a comment and not a section marker, so the loop reads it as a row |
| TableReadBack.EdgeRead | packages/structured-table/src/core/parser/stringify-table.ts:25-29 | a written header or footer block leaves the state alone when the row has no cells; otherwise it enters the section and places a row whose cells read back |
| TableReadBack.DataLinesRun | packages/structured-table/src/core/parser/parse-table.ts:204-210 | data lines in the body section append one row per line, in order, and change nothing else |
| TableReadBack.BodyLinesRead | packages/structured-table/src/core/parser/stringify-table.ts:34-38 | the written body lines append one row per body row, each reading back as that row's visible cells |
| TableReadBack.BodyBlockRead | packages/structured-table/src/core/parser/stringify-table.ts:32-40 | an empty body writes nothing and changes nothing; otherwise the block appends its rows, each reading back |
| TableReadBack.EndRead | packages/structured-table/src/core/parser/parse-table.ts:131 | the `#endtable` line is skipped as a comment |
| TableReadBack.BodyKept | packages/structured-table/src/core/parser/parse-table.ts:88-117 | a body read back from rows without row spans above 1 and without flags is unchanged by the row-span normaliser |
| TableReadBack.NormalizedOutcome | packages/structured-table/src/core/parser/parse-table.ts:212 | normalising keeps every read-back fact of a writable document |
| TableReadBack.TableReadsBack | packages/structured-table/src/core/parser/stringify-table.ts:12-53 | parsing the written text of a writable document gives back its name, column count and serial switch, header and footer cells, one body row per row, and every cell reading back |
| Editor.EmptyCells | apps/web/src/components/table-editor/visual-editor.tsx:98-113 | n empty text cells with consecutive fresh uids |
| Editor.MapCells | apps/web/src/components/table-editor/visual-editor.tsx:67-95 | mapping keeps the number of cells |
| Editor.UpdateBodyCellOnly | apps/web/src/components/table-editor/visual-editor.tsx:67-95 | a body update changes only the matching cell in the matching row; everything else stays |
| Editor.UpdateEdgeCellOnly | apps/web/src/components/table-editor/visual-editor.tsx:67-95 | a header or footer update changes only the matching cell of that row |
| Editor.AddRowAppends | apps/web/src/components/table-editor/visual-editor.tsx:98-113 | one row of `cols` empty cells is appended; the rest is unchanged |
| Editor.WithoutRow | apps/web/src/components/table-editor/visual-editor.tsx:158-164 | deleting never adds rows |
| Editor.DeleteRowFilters | apps/web/src/components/table-editor/visual-editor.tsx:158-164 | exactly the rows with another uid remain |
| Editor.DeleteRowKeepsOrder | apps/web/src/components/table-editor/visual-editor.tsx:158-164 | the survivors keep their order |
| Editor.DeleteRowEffect | apps/web/src/components/table-editor/visual-editor.tsx:159-164 | on the table, the body holds exactly the rows with another uid, and name, cols, switch, header and footer are untouched |
| Editor.AddColumnExtendsEveryRow | apps/web/src/components/table-editor/visual-editor.tsx:116-156 | cols grows by one; header, every body row and footer, when present, keep their uid and cells and gain one empty text cell at the end; nothing else changes |
| Editor.WithoutIndex | apps/web/src/components/table-editor/visual-editor.tsx:167-197 | one cell fewer when the index exists, the same cells otherwise |
| Editor.DeleteColumnRemovesIndex | apps/web/src/components/table-editor/visual-editor.tsx:167-197 | nothing happens at one column or fewer; otherwise cols drops by one and header, body rows and footer each lose the cell at the index, if any, keeping uid and the other cells in order; nothing else changes |
| Editor.WithoutCell | apps/web/src/components/table-editor/visual-editor.tsx:200-235 | deleting never adds cells |
| Editor.WithoutCellFilters | apps/web/src/components/table-editor/visual-editor.tsx:200-235 | exactly the cells with another uid remain |
| Editor.WithoutCellKeepsOrder | apps/web/src/components/table-editor/visual-editor.tsx:200-235 | the cell filter keeps order: filtering `a + b` is filtering `a`, then `b` |
| Editor.EdgeWithoutCellEffect | apps/web/src/components/table-editor/visual-editor.tsx:200-235 | a header or footer after the deletion is present exactly when another cell is left, and then holds exactly the other cells, in order |
| Editor.DeleteCellEffect | apps/web/src/components/table-editor/visual-editor.tsx:200-235 | in the chosen section only, the target row keeps its uid and exactly its other cells, in order; a header or footer emptied by the deletion becomes absent; body rows stay even when empty |
| Editor.ToggleSerialIndex | apps/web/src/components/table-editor/visual-editor.tsx:238-250 | the switch flips and nothing else changes |
| Editor.ToggleHeader | apps/web/src/components/table-editor/visual-editor.tsx:253-271 | a header is removed if present, or added with `cols` empty cells |
| Editor.ToggleFooter | apps/web/src/components/table-editor/visual-editor.tsx:274-292 | the same for the footer |
| Editor.ToggleHeaderTwice | apps/web/src/components/table-editor/visual-editor.tsx:253-271 | toggling twice restores a missing header, and replaces a present one by a fresh empty row |
| Editor.ToggleSerialIndexTwice | apps/web/src/components/table-editor/visual-editor.tsx:238-250 | toggling twice is the identity |
| Editor.ChangeTypeEffect | apps/web/src/components/table-editor/visual-editor.tsx:415-439 | a type change keeps uid and spans, carries the shown text across, and keeps href or url only from a cell of the same kind |
| Editor.ChangeToSameType | apps/web/src/components/table-editor/visual-editor.tsx:415-439 | changing to the type a cell already has shows the same cell |
| Editor.ShownTextSurvives | apps/web/src/components/table-editor/visual-editor.tsx:415-439 | the shown text survives any two changes |
| Move.MoveRow | apps/web/src/components/table-editor/visual-editor.tsx:294-302 | the splices compute `RowMoved` |
| Move.MoveRowPermutes | apps/web/src/components/table-editor/visual-editor.tsx:294-302 | a target outside the body changes nothing; otherwise the body is a permutation with the moved row at the target and the others in order |
| Move.MovePermutes | apps/web/src/components/table-editor/visual-editor.tsx:298-299 | take-out and put-back permutes, places the element, and keeps the rest in order |
| Move.ColToCell | apps/web/src/components/table-editor/visual-editor.tsx:311-315 | each entry names a cell of the row |
| Move.Logical | apps/web/src/components/table-editor/visual-editor.tsx:324-328 | the logical cells line up with `colToCell` |
| Move.BuildColToCell | apps/web/src/components/table-editor/visual-editor.tsx:311-315 | the push loop computes `ColToCell` |
| Move.BuildLogical | apps/web/src/components/table-editor/visual-editor.tsx:324-328 | the push loop computes `Logical` |
| Move.KeepFirstByUid | apps/web/src/components/table-editor/visual-editor.tsx:334-341 | the `seen` loop keeps the first cell of each uid |
| Move.MoveRowColumns | apps/web/src/components/table-editor/visual-editor.tsx:309-344 | the corrected row move computes `ColumnsMoved` |
| Move.ShortRowMoveThrows | apps/web/src/components/table-editor/visual-editor.tsx:318-343 | in a two-column table with a one-cell body row, moving column 2 left throws |
| Move.AsWrittenThrowsIff | apps/web/src/components/table-editor/visual-editor.tsx:318-343 | the code as written throws exactly when `fromIndex` is past the row's logical columns and `toIndex` is inside them |
| Move.CorrectedAgreesWithAsWritten | apps/web/src/components/table-editor/visual-editor.tsx:318-343 | wherever the code as written does not throw (and `fromIndex` is not negative), the corrected move agrees with it |
| Move.MoveColumnPermutesCells | apps/web/src/components/table-editor/visual-editor.tsx:309-344 | with distinct uids and spans of at least one, a column move permutes the row's cells |
| Move.MoveColumn | apps/web/src/components/table-editor/visual-editor.tsx:305-353 | name, column count and serial switch are kept, present sections stay present and absent ones absent, and the body keeps its number of rows |
| Move.MoveColumnEffect | apps/web/src/components/table-editor/visual-editor.tsx:305-353 | a target outside `[0, cols)` leaves the table as it is (a NaN count lets every target through); otherwise the header, each body row and the footer are each moved by the row move, and the rest of the table is kept |
| Move.SameCellLeavesRow | apps/web/src/components/table-editor/visual-editor.tsx:318-322 | a row is left as it is when both indices fall in the same cell, or when `fromIndex` is no logical column of it |
| Move.MoveColumnPlacesCell | apps/web/src/components/table-editor/visual-editor.tsx:309-344 | in a row of single-column cells with distinct uids, the moved cell is taken out and put in at `toIndex`: it lands there, the other cells keep their order, and the row keeps its uid |
| MarkSpans.CoveredMembers | apps/web/src/components/table-editor/visual-editor.tsx:379-384 | a placed cell covers its row-span by column-span block, its own position excepted |
| MarkSpans.MarkCovered | apps/web/src/components/table-editor/visual-editor.tsx:379-384 | the inner loops add exactly that block |
| MarkSpans.FirstPass | apps/web/src/components/table-editor/visual-editor.tsx:368-389 | the first pass computes `Occupied` |
| MarkSpans.FreeUpTo | apps/web/src/components/table-editor/visual-editor.tsx:395-403 | at most n free positions before column n |
| MarkSpans.SecondPass | apps/web/src/components/table-editor/visual-editor.tsx:393-405 | each row keeps the prefix of its cells as long as its free positions allow |
| MarkSpans.NormalizedRows | apps/web/src/components/table-editor/visual-editor.tsx:365-405 | every displayed row is a prefix of its cells, at most `cols` long, with its uid |
| MarkSpans.MarkSpans | apps/web/src/components/table-editor/visual-editor.tsx:365-405 | both passes compute `NormalizedRows` |
| MarkSpans.Normalized | apps/web/src/components/table-editor/visual-editor.tsx:407-411 | header and footer are normalised on their own and stay present or absent; the body keeps its rows |
| MarkSpans.NoSpansNothingOccupied | apps/web/src/components/table-editor/visual-editor.tsx:368-389 | without spans nothing is marked |
| MarkSpans.NoSpansTruncates | apps/web/src/components/table-editor/visual-editor.tsx:365-405 | without spans each row shows its first `cols` cells |
| MarkSpans.OccupiedGrows | apps/web/src/components/table-editor/visual-editor.tsx:368-389 | later rows never unmark a position |
| MarkSpans.FirstCellSpanHides | apps/web/src/components/table-editor/visual-editor.tsx:368-389 | the first cell's span block is marked |
| Render.Lookup | packages/structured-table/src/core/register/render.ts:14-22 | a kind resolves exactly when its entry is present and truthy; otherwise the error names the kind and `stl-cli add` |
| Render.Registry.constructor | packages/structured-table/src/core/register/render.ts:8 | the store starts empty |
| Render.Registry.RegisterRenderer | packages/structured-table/src/core/register/render.ts:10-12 | the entry of the kind is set, the other entries stay |
| Render.Registry.GetRenderer | packages/structured-table/src/core/register/render.ts:14-22 | the lookup of the current store |
| Render.GetAfterRegister | packages/structured-table/src/core/register/render.ts:10-22 | after registering a renderer, getting its kind returns it |
| Render.RegisterOverwrites | packages/structured-table/src/core/register/render.ts:11 | registering again replaces the earlier renderer |
| Render.RegisterKeepsOtherKind | packages/structured-table/src/core/register/render.ts:10-12 | registering one kind leaves the other kind's lookup as it was |
| Render.EmptyStoreFails | packages/structured-table/src/core/register/render.ts:15-20 | before any registration every kind fails with its message |
| Render.FalsyIsMissing | packages/structured-table/src/core/register/render.ts:17 | a falsy entry fails as if missing |
| Render.RegistryScenario | packages/structured-table/src/core/register/render.ts:10-22 | registering React, Vue, React again: each get sees the latest renderer of its kind |
| RendererArg.ParseRenderer | packages/structured-table-cli/src/utils/parse-renderer.ts:3-17 | the name holds no `@`; the version is missing exactly when the input has no `@`, and holds no `@` |
| RendererArg.NameOnly | packages/structured-table-cli/src/utils/parse-renderer.ts:5-8 | without `@` the whole input is the name and the version is missing |
| RendererArg.NameAndVersion | packages/structured-table-cli/src/utils/parse-renderer.ts:5-8 | `name@version` reads back as its parts; a trailing `@` gives the empty version |
| RendererArg.ExtraPartsDropped | packages/structured-table-cli/src/utils/parse-renderer.ts:5 | anything after a second `@` is dropped |
| RendererArg.ParsedPartsArePrefix | packages/structured-table-cli/src/utils/parse-renderer.ts:5-7 | the name is the text before the first `@` |
| InstallCommand.Spec | packages/structured-table-cli/src/project/get-install-command.ts:8-10 | `package@version` when there is a version, `package` otherwise |
| InstallCommand.Specs | packages/structured-table-cli/src/project/get-install-command.ts:8-10 | one spec per dependency, in order |
| InstallCommand.GetInstallCommand | packages/structured-table-cli/src/project/get-install-command.ts:3-24 | the command is the manager's prefix, one space, then the specs joined by single spaces |
| InstallCommand.NoDependencies | packages/structured-table-cli/src/project/get-install-command.ts:8-18 | no dependencies leave the prefix and one trailing space |
| InstallCommand.OneMoreDependency | packages/structured-table-cli/src/project/get-install-command.ts:14-18 | one more dependency adds one space and its spec |
| InstallCommand.SpecsReadBack | packages/structured-table-cli/src/project/get-install-command.ts:14-18 | without spaces in names and versions, splitting the tail on spaces gives back the specs |
| StringFacts.SplitOfJoin | packages/structured-table/src/core/parser/parse-table.ts:161 | splitting joined parts that do not contain the separator gives them back |
| StringFacts.SplitCount | packages/structured-table/src/core/parser/parse-table.ts:161 | `split` gives one part more than there are separators |
| StringFacts.ParseIntOfIntToString | packages/structured-table/src/core/parser/parse-table.ts:152 | `parseInt` reads back the decimal text `IntToString` writes for any integer; that text is what `${n}` gives for safe integers |
| StringFacts.ParseIntOfNaN | packages/structured-table/src/core/parser/parse-table.ts:152 | `parseInt("NaN")` is NaN, so a NaN column count survives a text round trip |
| StringFacts.TrimEmpty | packages/structured-table/src/core/parser/parse-table.ts:130-131 | a line trims to the empty string exactly when it is all white space, so exactly those lines are skipped as blank |
| StringFacts.TrimSplitsString | packages/structured-table/src/core/parser/parse-table.ts:130 | a string is its leading white space, its trimmed text and its trailing white space |

## Left out

- Uids come from nanoid in the source. Here they are drawn from a counter the caller supplies, and every property is stated up to uid values.
- Strings.IntToString: JavaScript numbers are doubles, while the model's are unbounded integers. `${n}` writes every digit only for safe integers, of magnitude at most 2^53 - 1; beyond that values are inexact, and from 10^21 on it writes exponent form, which `parseInt` reads back wrongly. Stringify.ShowNumber and TableReadBack.TableReadsBack therefore hold for safe integers: the writable conditions bound the column count and the spans to them.
- Strings are sequences of Unicode scalar values. JavaScript strings are UTF-16 code units, so a lone surrogate is not representable; no result here depends on the encoding.
- JavaScript `Number` and `parseInt` are modelled on optionally signed decimal integers. `Number` also reads decimals, exponents, hexadecimal and `Infinity`; the model treats such span text as not a number.
- The table `caption` field and the `align` field of a cell are carried by no modelled operation. The parser's allow-list has `textAlign` but not `align`, and the serialiser writes neither.
- A cell's `newTab` is a string field. The editor's boolean `true` is stored as `"true"` and `false` as `""`, which every reader in the model treats alike. Button `variant` is not restricted to its three declared values, since tags copy any text.
- JavaScript property names such as `__proto__` on the tag object are not modelled.
- Registered renderers are opaque values, either falsy or an identity. Rendering is not modelled.
- The package manager type has exactly three values. The source's fallback for any other string is therefore the `Npm` case.
- The editor's React state, JSX, drag-and-drop and events are not modelled. Only the updater bodies and `markSpans` are.
- The CLI's console output, error handling and process calls, and the parser facade that only re-exports, are not modelled.
- `markSpans` keys positions as the text `row-column`. The model uses pairs of integers, which that text represents one to one.
- Move.RowMoved: a `fromIndex` past the body makes the source put `undefined` into the body. The model returns `None` there instead of a document holding an undefined row.
- Move.ColumnsMoved: a `fromIndex` that is not a logical column of the row leaves the row as it is. The code as written throws there or, for a negative index, moves a cell from the end; see Findings.
- TableReadBack.TableReadsBack: the round trip is proved only for writable documents. Their conditions are:
  - the name is trimmed and holds no line break;
  - every written row has at least one cell;
  - its line is not empty, neither starts nor ends with white space, and does not start with `#`;
  - the column count is NaN or a safe integer;
  - cells are text, link or button cells, and their spans are absent or safe integers of at least 1;
  - text values are trimmed and contain no `|`, `{`, `}`, `[`, `]` or line break;
  - tag values contain none of those characters and no `"`;
  - no body cell has a row span above 1, because the normaliser of the read-back document would then drop the cells the span covers.
- TableReadBack.TableReadsBack: uids are read back as freshly drawn, not as the originals. Header and footer rows without cells are not written and come back as in the initial document. Alignment is not written and comes back absent.
- CellRoundTrip.TagObjectOfPairs: the read-back is proved for the tag attributes only, under the condition that keys are words and values contain no `"` or line terminator.

## Findings

| source | as written | input that shows it | evidently intended | confidence | as-written member | corrected member |
|---|---|---|---|---|---|---|
| apps/web/src/components/table-editor/visual-editor.tsx:318-343 | the no-op guard compares only `colToCell[fromIndex]` with `colToCell[toIndex]`; when `fromIndex` is past a row's logical columns, `splice` takes out nothing, `undefined` is put back, and `cell.uid` throws | cols 2, a body row holding one cell (e.g. after deleting a cell), "move left" on column 2, i.e. from 1 to 0 | a row without logical column `fromIndex` is left as it is | not executed | Move.ShortRowMoveThrows | Move.MoveColumnPermutesCells |
| packages/structured-table/src/core/parser/parse-table.ts:97-107 | the normaliser removes the cell at the spanning cell's own cell index in each covered row, although the documentation (apps/web/src/app/docs/stl-syntax/spanning/page.tsx:63) tells authors to skip writing the spanned cell | the documented example (spanning/page.tsx:45-49): `{rowSpan="2"} Electronics \| TV`, `Monitor`, `{rowSpan="2"} Furniture \| Chair`, `Table` loses "Monitor" and "Table" | positions counted by column, so a cell the author left out is not removed twice and the written cells stay; the parser model keeps the code's behaviour | not executed | NormalizeProperties.DocExampleLosesCells | NormalizeProperties.DocExampleKeptByColumns |
