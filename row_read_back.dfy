/** Reading back the line the serialiser writes for one row: the line is split on
    `|`, and each piece, trimmed, is the text of one cell. */
module RowReadBack {
  import opened Wrappers
  import opened Strings
  import opened StringFacts
  import opened Types
  import opened ParseCell
  import opened Stringify
  import opened BlockRoundTrip
  import opened CellReadBack
  import opened ParseTable

  /** Splitting texts joined by ` | ` on `|` gives one piece per text, and each
      piece trims to its text, when the texts are trimmed and hold no `|`. */
  lemma {:induction false} SplitOfRow(texts: seq<string>)
    requires |texts| >= 1
    requires forall k :: 0 <= k < |texts| ==> '|' !in texts[k] && IsTrimmed(texts[k])
    ensures var pieces := Split(Join(texts, " | "), '|');
            |pieces| == |texts| && forall k :: 0 <= k < |texts| ==> Trim(pieces[k]) == texts[k]
    decreases |texts|
  {
    if |texts| == 1 {
      SplitOfOne(texts);
    } else {
      SplitOfRow(texts[1..]);
      SplitOfRowStep(texts);
    }
  }

  /** A single text with no `|` is its own only piece. */
  lemma SplitOfOne(texts: seq<string>)
    requires |texts| == 1 && '|' !in texts[0] && IsTrimmed(texts[0])
    ensures var pieces := Split(Join(texts, " | "), '|');
            |pieces| == 1 && Trim(pieces[0]) == texts[0]
  {
    JoinOne(texts, " | ");
    SplitNoBar(texts[0]);
    TrimTrimmed(texts[0]);
  }

  lemma JoinOne(parts: seq<string>, sep: string)
    requires |parts| == 1
    ensures Join(parts, sep) == parts[0]
  {
  }

  lemma SplitNoBar(t: string)
    requires '|' !in t
    ensures Split(t, '|') == [t]
  {
  }

  /** The step of `SplitOfRow`: the first text, then the pieces of the rest. */
  lemma SplitOfRowStep(texts: seq<string>)
    requires |texts| >= 2
    requires forall k :: 0 <= k < |texts| ==> '|' !in texts[k] && IsTrimmed(texts[k])
    requires var p := Split(Join(texts[1..], " | "), '|');
             |p| == |texts| - 1 && forall k :: 0 <= k < |p| ==> Trim(p[k]) == texts[1..][k]
    ensures var pieces := Split(Join(texts, " | "), '|');
            |pieces| == |texts| && forall k :: 0 <= k < |texts| ==> Trim(pieces[k]) == texts[k]
  {
    var p := Split(Join(texts[1..], " | "), '|');
    var pieces := Split(Join(texts, " | "), '|');
    RowPieces(texts);
    TrimAfterSpace(p[0]);
    TrimBeforeSpace(texts[0]);
    PiecesIndex(texts[0] + " ", " " + p[0], p, pieces);
    PiecesTrimWith(Trim, texts, texts[1..], p, texts[0] + " ", " " + p[0], pieces);
  }

  /** The pieces of a row line of two or more texts: the first text with the space
      before its bar, then the first piece of the rest after one space, then the
      other pieces of the rest. */
  lemma RowPieces(texts: seq<string>)
    requires |texts| >= 2 && '|' !in texts[0]
    ensures var p := Split(Join(texts[1..], " | "), '|');
            Split(Join(texts, " | "), '|') == [texts[0] + " "] + ([" " + p[0]] + p[1..])
  {
    JoinFirst(texts, " | ");
    SplitFirstCell(texts[0], Join(texts[1..], " | "));
  }

  /** A join of two or more parts starts with the first part and the separator. */
  lemma JoinFirst(parts: seq<string>, sep: string)
    requires |parts| >= 2
    ensures Join(parts, sep) == parts[0] + sep + Join(parts[1..], sep)
  {
  }

  /** The pieces of a row line match its texts under `f` when its first two pieces
      do and the remaining pieces are those of the rest of the line. */
  lemma PiecesTrimWith(f: string -> string, texts: seq<string>, rest: seq<string>, p: seq<string>, a: string, b: string, pieces: seq<string>)
    requires |texts| >= 2 && rest == texts[1..] && |p| == |rest| && |pieces| == |texts|
    requires forall k :: 0 <= k < |p| ==> f(p[k]) == rest[k]
    requires f(a) == texts[0] && f(b) == texts[1] && pieces[0] == a && pieces[1] == b
    requires forall k :: 2 <= k < |pieces| ==> pieces[k] == p[k - 1]
    ensures forall k :: 0 <= k < |texts| ==> f(pieces[k]) == texts[k]
  {
    forall k | 0 <= k < |texts|
      ensures f(pieces[k]) == texts[k]
    {
      if k >= 2 {
        assert pieces[k] == p[k - 1] && rest[k - 1] == texts[k];
      }
    }
  }

  /** Where the pieces of a row line come from. */
  lemma PiecesIndex(a: string, b: string, p: seq<string>, pieces: seq<string>)
    requires |p| >= 1 && pieces == [a] + ([b] + p[1..])
    ensures |pieces| == |p| + 1 && pieces[0] == a && pieces[1] == b
    ensures forall k :: 2 <= k < |pieces| ==> pieces[k] == p[k - 1]
  {
  }

  /** A trailing space is trimmed away from trimmed text. */
  lemma TrimBeforeSpace(t: string)
    requires IsTrimmed(t)
    ensures Trim(t + " ") == t
  {
    TrimOfPadded("", t, " ");
    assert "" + t + " " == t + " ";
  }

  /** A leading space is trimmed away. */
  lemma TrimAfterSpace(x: string)
    ensures Trim(" " + x) == Trim(x)
  {
    TrimStartSkipsWhitespace(" ", x);
  }

  /** The first text of a row line is its own piece; the rest of the line follows
      after one space. */
  lemma SplitFirstCell(t: string, j: string)
    requires '|' !in t
    ensures Split(t + " | " + j, '|') == [t + " "] + ([" " + Split(j, '|')[0]] + Split(j, '|')[1..])
  {
    assert t + " | " + j == (t + " ") + ['|'] + (" " + j);
    SplitAfterFirst(t + " ", " " + j, '|');
    SplitPrepend(" ", j, '|');
  }

  /** A row of writable cells, written as one line and read back, draws its uid and
      one uid per cell in order, and has one cell per written cell, each read back as
      that cell. */
  lemma RowReadsBack(cells: seq<Cell>, next: Uid)
    requires |cells| >= 1 && forall k :: 0 <= k < |cells| ==> Writable(cells[k])
    ensures var r := RowOf(CellOf, RowText(cells), next);
            r.uid == next && |r.cells| == |cells|
            && forall k :: 0 <= k < |cells| ==> ReadsBackAs(r.cells[k], cells[k]) && r.cells[k].uid == next + 1 + k
  {
    CellOfReadsBackCells();
    RowReadsBackWith(CellOf, cells, next);
  }

  /** The same for any cell parser that reads back writable cells. */
  lemma RowReadsBackWith(cell: CellParser, cells: seq<Cell>, next: Uid)
    requires ReadsBackCells(cell)
    requires |cells| >= 1 && forall k :: 0 <= k < |cells| ==> Writable(cells[k])
    ensures var r := RowOf(cell, RowText(cells), next);
            r.uid == next && |r.cells| == |cells|
            && forall k :: 0 <= k < |cells| ==> ReadsBackAs(r.cells[k], cells[k]) && r.cells[k].uid == next + 1 + k
  {
    RowTextSplit(cells);
    CellsReadBackWith(cell, cells, Split(RowText(cells), '|'), next + 1);
  }

  /** The pieces of a written row line trim to the texts of its cells. */
  lemma RowTextSplit(cells: seq<Cell>)
    requires |cells| >= 1 && forall k :: 0 <= k < |cells| ==> Writable(cells[k])
    ensures var pieces := Split(RowText(cells), '|');
            |pieces| == |cells| && forall k :: 0 <= k < |cells| ==> Trim(pieces[k]) == CellText(cells[k])
  {
    var texts := CellTexts(cells);
    forall k | 0 <= k < |texts| ensures '|' !in texts[k] && IsTrimmed(texts[k]) {
      CellTextShape(cells[k]);
    }
    SplitOfRow(texts);
  }

  /** A cell parser that reads back every writable cell from any raw text that
      trims to the cell's text, with the uid it draws. */
  ghost predicate ReadsBackCells(cell: CellParser) {
    forall raw, u, c :: Writable(c) && Trim(raw) == CellText(c) ==> ReadsBackAs(cell(raw, u), c) && cell(raw, u).uid == u
  }

  lemma CellOfReadsBackCells()
    ensures ReadsBackCells(CellOf)
  {
    forall raw, u, c | Writable(c) && Trim(raw) == CellText(c)
      ensures ReadsBackAs(CellOf(raw, u), c) && CellOf(raw, u).uid == u
    {
      CellReadsBack(c, raw, u);
    }
  }

  /** Raw cells that trim to the texts of writable cells read back as those cells,
      drawing uids from `first` on. */
  lemma CellsReadBackWith(cell: CellParser, cells: seq<Cell>, pieces: seq<string>, first: Uid)
    requires ReadsBackCells(cell)
    requires |pieces| == |cells| && forall k :: 0 <= k < |cells| ==> Writable(cells[k])
    requires forall k :: 0 <= k < |cells| ==> Trim(pieces[k]) == CellText(cells[k])
    ensures var read := CellsOf(cell, pieces, first);
            forall k :: 0 <= k < |cells| ==> ReadsBackAs(read[k], cells[k]) && read[k].uid == first + k
  {
    var read := CellsOf(cell, pieces, first);
    forall k | 0 <= k < |cells| ensures ReadsBackAs(read[k], cells[k]) && read[k].uid == first + k {
      CellsOfAt(cell, pieces, first, k);
      OneCellReadsBack(cell, pieces[k], first + k, cells[k]);
    }
  }

  lemma CellsOfAt(cell: CellParser, raws: seq<string>, first: Uid, k: nat)
    requires k < |raws|
    ensures CellsOf(cell, raws, first)[k] == cell(raws[k], first + k)
  {
  }

  lemma OneCellReadsBack(cell: CellParser, raw: string, u: Uid, c: Cell)
    requires ReadsBackCells(cell) && Writable(c) && Trim(raw) == CellText(c)
    ensures ReadsBackAs(cell(raw, u), c) && cell(raw, u).uid == u
  {
  }
}
