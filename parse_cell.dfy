/** One cell of a data line: the attribute block is read first, then the cleaned
    text is either a `[button …]` / `[link …]` tag, whose `key="value"` pairs are
    copied onto the cell, or plain text. */
module ParseCell {
  import opened Wrappers
  import opened Strings
  import opened StringFacts
  import Seqs
  import opened Types
  import opened Regex
  import opened ParseAttributes

  /** The tag-attribute loop from scan position `from`: every match assigns
      `object[key] = value`, so a later pair with the same key wins. */
  function TagObjectFrom(s: string, from: nat, obj: map<string, string>): map<string, string>
    decreases |s| - from
  {
    var m := NextAttr(s, from);
    if m.None? then obj
    else TagObjectFrom(s, m.value.2 + 1, AddAttr(s, m.value.0, m.value.1, m.value.2, obj))
  }

  /** `object[key] = value` for the attribute match `s[p..q+1]`: key `s[p..e]`,
      value `s[e+2..q]`. */
  function AddAttr(s: string, p: nat, e: nat, q: nat, obj: map<string, string>): map<string, string>
    requires p <= e && e + 2 <= q <= |s|
  {
    obj[s[p..e] := s[e + 2..q]]
  }

  /** The object a tag builds: `{ type: tag }` and then every attribute pair. */
  function TagObject(attrString: string, tag: string): map<string, string> {
    TagObjectFrom(attrString, 0, TypeOnly(tag))
  }

  /** `{ type: tag }`. */
  function TypeOnly(tag: string): map<string, string> {
    map["type" := tag]
  }

  /** The loop over `ATTRIBUTE_REGEX.exec`, with the scan position reset to 0. */
  method CollectTagAttributes(attrString: string, tagType: string) returns (cellObject: map<string, string>)
    ensures cellObject == TagObject(attrString, tagType)
  {
    cellObject := TypeOnly(tagType);
    var lastIndex := 0;
    var attrMatch := NextAttr(attrString, lastIndex);
    while attrMatch.Some?
      invariant lastIndex <= |attrString|
      invariant attrMatch == NextAttr(attrString, lastIndex)
      invariant TagObjectFrom(attrString, lastIndex, cellObject) == TagObject(attrString, tagType)
      decreases |attrString| - lastIndex
    {
      var p, e, q := attrMatch.value.0, attrMatch.value.1, attrMatch.value.2;
      cellObject := AddAttr(attrString, p, e, q, cellObject);
      lastIndex := q + 1;
      attrMatch := NextAttr(attrString, lastIndex);
    }
  }

  /** Fields of the tag object that are not plain string properties of the cell. */
  predicate Reserved(key: string) {
    key == "type" || key == "uid" || key == "colSpan" || key == "rowSpan"
    || key == "textAlign" || key == "_removedDueToRowSpan"
  }

  /** A span of `{ ...cellObject, ...attrObj }`: the block's value when the block set
      it, else the tag's text value, else missing. */
  function MergedSpan(block: Option<SpanValue>, obj: map<string, string>, key: string): Option<SpanValue> {
    if block.Some? then block
    else if key in obj then Some(SpanStr(obj[key]))
    else None
  }

  /** `{ ...cellObject, ...attrObj, uid }`: the tag object, then the block attributes,
      then the fresh uid. */
  function TagCell(obj: map<string, string>, attrs: Attrs, uid: Uid): Cell {
    Cell(
      uid,
      Get(obj, "type"),
      map k | k in obj && !Reserved(k) :: obj[k],
      MergedSpan(attrs.colSpan, obj, "colSpan"),
      MergedSpan(attrs.rowSpan, obj, "rowSpan"),
      if attrs.textAlign.Some? then attrs.textAlign
      else if "textAlign" in obj then Some(obj["textAlign"]) else None,
      Get(obj, "_removedDueToRowSpan") != "")
  }

  /** `{ uid, type: "text", value: text, ...attrObj }`. */
  function TextCell(text: string, attrs: Attrs, uid: Uid): Cell {
    Cell(uid, "text", map["value" := text], attrs.colSpan, attrs.rowSpan, attrs.textAlign, false)
  }

  /** The cell built from the cleaned text: the leftmost tag wins, and the text around
      it is dropped. */
  function CellFromText(text: string, attrs: Attrs, uid: Uid): Cell {
    var m := FindCta(text, 0);
    if m.None? then TextCell(text, attrs, uid)
    else TagCell(TagObject(TagBody(text, m.value), m.value.tag), attrs, uid)
  }

  /** The second group of a tag match: the text between the tag name and `]`. */
  function TagText(text: string, m: CtaMatch): string
    requires m.open + 1 + |m.tag| <= m.close <= |text|
  {
    text[m.open + 1 + |m.tag|..m.close]
  }

  /** The second group of a tag match, trimmed. */
  function TagBody(text: string, m: CtaMatch): string
    requires m.open + 1 + |m.tag| <= m.close <= |text|
  {
    Trim(TagText(text, m))
  }

  /** One raw cell of a data line, with the uid it draws. */
  function CellOf(raw: string, uid: Uid): Cell {
    var trimmed := Trim(raw);
    CellFromText(CleanText(trimmed), CellAttrs(trimmed), uid)
  }

  /** One pass of the loop over the raw cells of a line, as the source runs it. */
  method ParseCell(raw: string, uid: Uid) returns (cell: Cell)
    ensures cell == CellOf(raw, uid)
  {
    var trimmed := Trim(raw);
    var attrObj, text := ParseSpecificAttributes(trimmed);
    cell := CellOfText(text, attrObj, uid);
  }

  /** The tag-or-text step of one cell, on the cleaned text. */
  method CellOfText(text: string, attrObj: Attrs, uid: Uid) returns (cell: Cell)
    ensures cell == CellFromText(text, attrObj, uid)
  {
    var match_ := FindCta(text, 0);
    if match_.Some? {
      var m := match_.value;
      var attrString := TagBody(text, m);
      var cellObject := CollectTagAttributes(attrString, m.tag);
      TagCellOfMatch(text, attrObj, uid, m);
      cell := TagCell(cellObject, attrObj, uid);
      return;
    }
    TextCellOfNoMatch(text, attrObj, uid);
    cell := TextCell(text, attrObj, uid);
  }

  lemma TextCellOfNoMatch(text: string, attrs: Attrs, uid: Uid)
    requires FindCta(text, 0).None?
    ensures CellFromText(text, attrs, uid) == TextCell(text, attrs, uid)
  {
  }

  lemma TagCellOfMatch(text: string, attrs: Attrs, uid: Uid, m: CtaMatch)
    requires FindCta(text, 0) == Some(m)
    ensures CellFromText(text, attrs, uid) == TagCell(TagObject(TagBody(text, m), m.tag), attrs, uid)
  {
  }

  // ---------------------------------------------------------------- properties

  /** Every cell takes the uid it draws, whatever keys its tag carries, and span
      attributes from the block override those of the tag. */
  lemma CellTakesFreshUidAndBlockSpans(raw: string, uid: Uid)
    ensures CellOf(raw, uid).uid == uid
    ensures var a := CellAttrs(Trim(raw));
            var c := CellOf(raw, uid);
            (a.colSpan.Some? ==> c.colSpan == a.colSpan) && (a.rowSpan.Some? ==> c.rowSpan == a.rowSpan)
            && (a.textAlign.Some? ==> c.textAlign == a.textAlign)
  {
  }

  /** Without a tag the cell is a text cell holding the cleaned text. */
  lemma PlainTextCell(raw: string, uid: Uid)
    requires FindCta(CleanText(Trim(raw)), 0).None?
    ensures var c := CellOf(raw, uid);
            c.kind == "text" && View(c) == TextView(CleanText(Trim(raw))) && !c.removed
  {
  }

  /** A tag match, cut out of its text, is the leftmost match of the cut-out text. */
  lemma CtaOfSlice(text: string, i: nat, tag: string, j: nat)
    requires IsCtaMatch(text, i, tag, j)
    ensures FindCta(text[i..j + 1], 0) == Some(CtaMatch(0, tag, j - i))
  {
    var t := text[i..j + 1];
    assert t[1..1 + |tag|] == tag by {
      forall k | 0 <= k < |tag| ensures t[1 + k] == tag[k] {
        assert t[1 + k] == text[i + 1 + k] == text[i + 1..i + 1 + |tag|][k];
      }
    }
    assert Dotted(t, 1 + |tag|, j - i, ']') by {
      forall k | 1 + |tag| <= k < j - i
        ensures t[k] != ']' && !IsLineTerminator(t[k])
      {
        assert t[k] == text[i + k];
      }
    }
    assert IsCtaMatch(t, 0, tag, j - i);
    var r := FindCta(t, 0);
    FindCtaLeftmost(t, 0);
    assert r.Some? && r.value.open == 0;
    CtaMatchUnique(t, 0, r.value.tag, r.value.close, tag, j - i);
  }

  /** At one position there is at most one tag match. */
  lemma CtaMatchUnique(s: string, i: nat, t1: string, j1: nat, t2: string, j2: nat)
    requires IsCtaMatch(s, i, t1, j1) && IsCtaMatch(s, i, t2, j2)
    ensures t1 == t2 && j1 == j2
  {
    assert s[i + 1] == t1[0] && s[i + 1] == t2[0];
    LazyEndIff(s, i + 1 + |t1|, ']', j1);
    LazyEndIff(s, i + 1 + |t2|, ']', j2);
  }

  /** Text around the tag plays no part: the cell is the cell of the tag alone. */
  lemma TextAroundTagDropped(text: string, attrs: Attrs, uid: Uid, m: CtaMatch)
    requires FindCta(text, 0) == Some(m)
    ensures CellFromText(text, attrs, uid) == CellFromText(text[m.open..m.close + 1], attrs, uid)
  {
    CtaOfSlice(text, m.open, m.tag, m.close);
    TagBodyOfSlice(text, m);
  }

  /** The tag body read from the cut-out tag is the one read in place. */
  lemma TagBodyOfSlice(text: string, m: CtaMatch)
    requires m.open + 1 + |m.tag| <= m.close < |text|
    ensures TagBody(text[m.open..m.close + 1], CtaMatch(0, m.tag, m.close - m.open)) == TagBody(text, m)
  {
    TagTextOfSlice(text, m);
  }

  lemma TagTextOfSlice(text: string, m: CtaMatch)
    requires m.open + 1 + |m.tag| <= m.close < |text|
    ensures TagText(text[m.open..m.close + 1], CtaMatch(0, m.tag, m.close - m.open)) == TagText(text, m)
  {
    Seqs.SliceOfSlice(text, m.open, m.close + 1, 1 + |m.tag|, m.close - m.open);
  }
}
