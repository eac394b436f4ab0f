/** Reading back the text the serialiser writes for one cell. A cell whose written
    fields avoid the characters the cell grammar reserves (the cell separator `|`,
    braces, brackets, line terminators, and in a tag attribute the double quote)
    reads back with the same type, the same shown fields and the same spans above 1. */
module CellReadBack {
  import opened Wrappers
  import opened Strings
  import opened StringFacts
  import opened Types
  import opened Regex
  import opened ParseAttributes
  import opened ParseCell
  import opened Stringify
  import opened CellRoundTrip
  import opened BlockRoundTrip

  // ---------------------------------------------------------------- characters

  /** A character the cell grammar takes literally: not the cell separator, a brace,
      a bracket or a line terminator. */
  predicate PlainChar(ch: char) {
    ch != '|' && ch != '{' && ch != '}' && ch != '[' && ch != ']' && !IsLineTerminator(ch)
  }

  predicate Plain(s: string) {
    forall m :: 0 <= m < |s| ==> PlainChar(s[m])
  }

  /** A tag field value the serialiser can write: plain, and no double quote. */
  predicate SafeText(v: string) {
    Plain(v) && forall m :: 0 <= m < |v| ==> v[m] != '"'
  }

  /** Text that neither splits a row nor opens or closes a block or a line. */
  predicate Unbroken(s: string) {
    forall m :: 0 <= m < |s| ==> s[m] != '|' && s[m] != '{' && s[m] != '}' && !IsLineTerminator(s[m])
  }

  /** Text that is not empty and neither starts nor ends with white space. */
  predicate Solid(s: string) {
    s != [] && !IsWhitespace(s[0]) && !IsWhitespace(s[|s| - 1])
  }

  /** The cells the serialiser writes so that the parser reads them back: a text,
      link or button cell, spans missing or positive numbers, a trimmed plain text
      value, and plain tag fields without double quotes. */
  predicate Writable(c: Cell) {
    && SpanOk(c.colSpan) && SpanOk(c.rowSpan)
    && (c.kind == "text" || c.kind == "link" || c.kind == "button")
    && (c.kind == "text" ==> Plain(Prop(c, "value")) && IsTrimmed(Prop(c, "value")))
    && (c.kind == "link" ==> forall i :: 0 <= i < |LinkKeys| ==> SafeText(Prop(c, LinkKeys[i])))
    && (c.kind == "button" ==> forall i :: 0 <= i < |ButtonKeys| ==> SafeText(Prop(c, ButtonKeys[i])))
  }

  lemma PlainConcat(a: string, b: string)
    requires Plain(a) && Plain(b)
    ensures Plain(a + b)
  {
    forall m | 0 <= m < |a + b| ensures PlainChar((a + b)[m]) {
      if m < |a| {
        assert (a + b)[m] == a[m];
      } else {
        assert (a + b)[m] == b[m - |a|];
      }
    }
  }

  /** Joining plain parts with a plain separator gives plain text. */
  lemma {:induction false} JoinPlain(parts: seq<string>, sep: string)
    requires forall i :: 0 <= i < |parts| ==> Plain(parts[i])
    requires Plain(sep)
    ensures Plain(Join(parts, sep))
    decreases |parts|
  {
    if |parts| > 1 {
      JoinPlain(parts[1..], sep);
      PlainConcat(parts[0], sep);
      PlainConcat(parts[0] + sep, Join(parts[1..], sep));
    }
  }

  /** Joining solid parts gives solid text, or nothing when there are no parts. */
  lemma {:induction false} JoinSolid(parts: seq<string>, sep: string)
    requires forall i :: 0 <= i < |parts| ==> Solid(parts[i])
    ensures parts != [] ==> Solid(Join(parts, sep))
    ensures parts == [] ==> Join(parts, sep) == []
    decreases |parts|
  {
    if |parts| > 1 {
      JoinSolid(parts[1..], sep);
      var j := Join(parts, sep);
      var r := Join(parts[1..], sep);
      assert j == parts[0] + sep + r;
      assert j[0] == parts[0][0];
      assert j[|j| - 1] == r[|r| - 1];
    }
  }

  // ---------------------------------------------------------------- tag attributes

  /** A word is plain and solid. */
  lemma TagKeyShape(k: string)
    requires TagKey(k)
    ensures Plain(k) && !IsWhitespace(k[0])
  {
    forall m | 0 <= m < |k| ensures PlainChar(k[m]) {
      assert IsWordChar(k[m]);
    }
    assert IsWordChar(k[0]);
  }

  /** A written tag attribute `key="value"` is plain and solid. */
  lemma QuotedShape(k: string, v: string)
    requires TagKey(k) && SafeText(v)
    ensures Plain(Quoted(k, v)) && Solid(Quoted(k, v))
  {
    TagKeyShape(k);
    PlainConcat(k, "=\"");
    PlainConcat(k + "=\"", v);
    PlainConcat(k + "=\"" + v, "\"");
    assert Quoted(k, v)[0] == k[0];
  }

  /** Each written attribute of a tag is plain and solid. */
  lemma {:induction false} TagPairsShape(c: Cell, keys: seq<string>)
    requires forall i :: 0 <= i < |keys| ==> TagKey(keys[i]) && SafeText(Prop(c, keys[i]))
    ensures forall i :: 0 <= i < |TagPairs(c, keys)| ==> Plain(TagPairs(c, keys)[i]) && Solid(TagPairs(c, keys)[i])
    decreases |keys|
  {
    if keys != [] {
      TagPairsShape(c, keys[1..]);
      if Prop(c, keys[0]) != "" {
        QuotedShape(keys[0], Prop(c, keys[0]));
      }
    }
  }

  /** The attributes of a tag, joined by spaces, are plain and trimmed. */
  lemma TagBodyShape(c: Cell, keys: seq<string>)
    requires forall i :: 0 <= i < |keys| ==> TagKey(keys[i]) && SafeText(Prop(c, keys[i]))
    ensures Plain(Join(TagPairs(c, keys), " ")) && IsTrimmed(Join(TagPairs(c, keys), " "))
  {
    TagPairsShape(c, keys);
    JoinPlain(TagPairs(c, keys), " ");
    JoinSolid(TagPairs(c, keys), " ");
  }

  /** The field names of a link and of a button are words. */
  lemma KeysAreWords()
    ensures forall i :: 0 <= i < |LinkKeys| ==> TagKey(LinkKeys[i])
    ensures forall i :: 0 <= i < |ButtonKeys| ==> TagKey(ButtonKeys[i])
  {
    assert TagKey("text") && TagKey("href") && TagKey("newTab");
    assert TagKey("url") && TagKey("action") && TagKey("targetId") && TagKey("variant");
  }

  /** No field a link or a button writes is one the cell reserves. */
  lemma KeysUnreserved()
    ensures forall j :: j in LinkKeys ==> !Reserved(j)
    ensures forall j :: j in ButtonKeys ==> !Reserved(j)
  {
  }

  // ---------------------------------------------------------------- the tag

  /** A tag the serialiser writes, `[tag attributes]` with plain trimmed attributes,
      is the leftmost tag of its text and its body is the attributes. */
  lemma TagFound(t: string, tag: string, body: string)
    requires tag == "link" || tag == "button"
    requires t == "[" + tag + " " + body + "]"
    requires Plain(body) && IsTrimmed(body)
    ensures FindCta(t, 0) == Some(CtaMatch(0, tag, |t| - 1))
    ensures TagBody(t, CtaMatch(0, tag, |t| - 1)) == body
  {
    TagIsMatch(t, tag, body);
    MatchAtStart(t, tag, |t| - 1);
    TagBodyWritten(t, tag, body);
  }

  /** A tag match at the first character is the leftmost tag. */
  lemma MatchAtStart(t: string, tag: string, j: nat)
    requires IsCtaMatch(t, 0, tag, j)
    ensures FindCta(t, 0) == Some(CtaMatch(0, tag, j))
  {
    var r := FindCta(t, 0);
    FindCtaLeftmost(t, 0);
    assert r.Some? && r.value.open == 0;
    CtaMatchUnique(t, 0, r.value.tag, r.value.close, tag, j);
  }

  /** The body of a written tag, trimmed, is its attributes. */
  lemma TagBodyWritten(t: string, tag: string, body: string)
    requires tag == "link" || tag == "button"
    requires t == "[" + tag + " " + body + "]" && IsTrimmed(body)
    ensures TagBody(t, CtaMatch(0, tag, |t| - 1)) == body
  {
    assert TagText(t, CtaMatch(0, tag, |t| - 1)) == " " + body + "";
    TrimOfPadded(" ", body, "");
  }

  /** The written tag matches the tag pattern from its first to its last character. */
  lemma TagIsMatch(t: string, tag: string, body: string)
    requires tag == "link" || tag == "button"
    requires t == "[" + tag + " " + body + "]"
    requires Plain(body)
    ensures IsCtaMatch(t, 0, tag, |t| - 1)
  {
    var a := 1 + |tag|;
    assert t[1..a] == tag;
    forall m | a <= m < |t| - 1 ensures t[m] != ']' && !IsLineTerminator(t[m]) {
      if m > a {
        assert t[m] == body[m - a - 1];
      }
    }
  }

  /** A field of the cell a tag builds is the field of the tag object. */
  lemma TagCellProp(obj: map<string, string>, attrs: Attrs, uid: Uid, k: string)
    requires !Reserved(k)
    ensures Prop(TagCell(obj, attrs, uid), k) == Get(obj, k)
  {
  }

  /** The object built from a cell's written attributes holds each written field
      as it was, the tag type, and nothing the cell reserves. */
  lemma WrittenObject(c: Cell, keys: seq<string>, tag: string, k: string)
    requires k == "type" || k == "colSpan" || k == "rowSpan" || k == "textAlign" || k == "_removedDueToRowSpan"
             || k in keys
    requires forall j :: j in keys ==> !Reserved(j)
    ensures var obj := AddProps(c, keys, TypeOnly(tag));
            (k in keys ==> Get(obj, k) == Prop(c, k))
            && (k == "type" ==> Get(obj, k) == tag)
            && (k !in keys && k != "type" ==> k !in obj)
  {
    AddPropsGet(c, keys, TypeOnly(tag), k);
  }

  /** The cell a written link or button tag builds shows the same fields, takes its
      spans and alignment from the block, and is not flagged. */
  lemma TagCellRead(c: Cell, keys: seq<string>, attrs: Attrs, uid: Uid)
    requires (c.kind == "link" && keys == LinkKeys) || (c.kind == "button" && keys == ButtonKeys)
    requires forall i :: 0 <= i < |keys| ==> SafeText(Prop(c, keys[i]))
    ensures var d := TagCell(TagObject(Join(TagPairs(c, keys), " "), c.kind), attrs, uid);
            View(d) == View(c) && d.colSpan == attrs.colSpan && d.rowSpan == attrs.rowSpan
            && d.textAlign == attrs.textAlign && !d.removed && d.uid == uid
  {
    ObjectOfWritten(c, keys, c.kind);
    var obj := AddProps(c, keys, TypeOnly(c.kind));
    KeysUnreserved();
    WrittenObjectFacts(c, keys, c.kind);
    ViewOfTagCell(c, keys, obj, attrs, uid);
    RestOfTagCell(obj, attrs, uid);
  }

  /** Reading the written attributes of a tag builds the object of its fields. */
  lemma ObjectOfWritten(c: Cell, keys: seq<string>, tag: string)
    requires keys == LinkKeys || keys == ButtonKeys
    requires forall i :: 0 <= i < |keys| ==> SafeText(Prop(c, keys[i]))
    ensures TagObject(Join(TagPairs(c, keys), " "), tag) == AddProps(c, keys, TypeOnly(tag))
  {
    var body := Join(TagPairs(c, keys), " ");
    KeysAreWords();
    assert body[0..] == body;
    TagObjectOfPairs(body, 0, c, keys, TypeOnly(tag));
  }

  /** The object of a cell's written fields: the type, each field as it was, and no
      key the cell reserves. */
  lemma WrittenObjectFacts(c: Cell, keys: seq<string>, tag: string)
    requires forall j :: j in keys ==> !Reserved(j)
    ensures var obj := AddProps(c, keys, TypeOnly(tag));
            Get(obj, "type") == tag && (forall k :: k in keys ==> Get(obj, k) == Prop(c, k))
            && "colSpan" !in obj && "rowSpan" !in obj && "textAlign" !in obj && "_removedDueToRowSpan" !in obj
  {
    forall k | k in keys ensures Get(AddProps(c, keys, TypeOnly(tag)), k) == Prop(c, k) {
      WrittenObject(c, keys, tag, k);
    }
    WrittenObject(c, keys, tag, "type");
    WrittenObject(c, keys, tag, "colSpan");
    WrittenObject(c, keys, tag, "rowSpan");
    WrittenObject(c, keys, tag, "textAlign");
    WrittenObject(c, keys, tag, "_removedDueToRowSpan");
  }

  /** A tag object holding the type and the fields of a link or button cell builds a
      cell that shows what that cell shows. */
  lemma ViewOfTagCell(c: Cell, keys: seq<string>, obj: map<string, string>, attrs: Attrs, uid: Uid)
    requires (c.kind == "link" && keys == LinkKeys) || (c.kind == "button" && keys == ButtonKeys)
    requires Get(obj, "type") == c.kind
    requires forall k :: k in keys ==> Get(obj, k) == Prop(c, k)
    ensures View(TagCell(obj, attrs, uid)) == View(c)
  {
    var d := TagCell(obj, attrs, uid);
    forall k | k in keys ensures Prop(d, k) == Prop(c, k) {
      TagCellProp(obj, attrs, uid, k);
    }
    if c.kind == "link" {
      assert "text" in keys && "href" in keys && "newTab" in keys;
    } else {
      assert "text" in keys && "url" in keys && "action" in keys && "targetId" in keys && "variant" in keys;
    }
  }

  /** A tag object without span, alignment or flag fields leaves those to the block. */
  lemma RestOfTagCell(obj: map<string, string>, attrs: Attrs, uid: Uid)
    requires "colSpan" !in obj && "rowSpan" !in obj && "textAlign" !in obj && "_removedDueToRowSpan" !in obj
    ensures var d := TagCell(obj, attrs, uid);
            d.colSpan == attrs.colSpan && d.rowSpan == attrs.rowSpan && d.textAlign == attrs.textAlign
            && !d.removed && d.uid == uid
  {
  }

  // ---------------------------------------------------------------- the content

  /** Plain text holds no tag. */
  lemma NoTagInPlain(v: string)
    requires Plain(v)
    ensures FindCta(v, 0).None?
  {
  }

  /** The content of a writable cell neither splits a row nor holds a brace, and
      it is trimmed. */
  lemma ContentShape(c: Cell)
    requires Writable(c)
    ensures Unbroken(Content(c)) && IsTrimmed(Content(c))
  {
    if c.kind == "link" {
      TagShape(c, LinkKeys);
    } else if c.kind == "button" {
      TagShape(c, ButtonKeys);
    }
  }

  /** The tag a link or a button writes neither splits a row nor holds a brace. */
  lemma TagShape(c: Cell, keys: seq<string>)
    requires (c.kind == "link" && keys == LinkKeys) || (c.kind == "button" && keys == ButtonKeys)
    requires forall i :: 0 <= i < |keys| ==> SafeText(Prop(c, keys[i]))
    ensures Unbroken(Content(c)) && IsTrimmed(Content(c))
  {
    KeysAreWords();
    TagBodyShape(c, keys);
    var body := Join(TagPairs(c, keys), " ");
    assert Content(c) == "[" + c.kind + " " + body + "]";
    TagContentShape(c.kind, body);
  }

  /** `[tag body]` with a plain body neither splits a row nor holds a brace. */
  lemma TagContentShape(tag: string, body: string)
    requires tag == "link" || tag == "button"
    requires Plain(body)
    ensures Unbroken("[" + tag + " " + body + "]") && IsTrimmed("[" + tag + " " + body + "]")
  {
    var t := "[" + tag + " " + body + "]";
    var a := 1 + |tag|;
    forall m | 0 <= m < |t| ensures t[m] != '|' && t[m] != '{' && t[m] != '}' && !IsLineTerminator(t[m]) {
      if 0 < m < a {
        assert t[m] == tag[m - 1];
      } else if a < m < |t| - 1 {
        assert t[m] == body[m - a - 1];
      }
    }
  }

  /** The text cell read from a plain value holds that value. */
  lemma TextContentRead(c: Cell, attrs: Attrs, uid: Uid)
    requires c.kind == "text" && Plain(Prop(c, "value"))
    ensures var d := CellFromText(Content(c), attrs, uid);
            View(d) == View(c) && d.colSpan == attrs.colSpan && d.rowSpan == attrs.rowSpan
            && d.textAlign == attrs.textAlign && !d.removed && d.uid == uid
  {
    NoTagInPlain(Prop(c, "value"));
  }

  /** The cell read from the tag a link or button writes shows what the cell shows. */
  lemma TagContentRead(c: Cell, keys: seq<string>, attrs: Attrs, uid: Uid)
    requires (c.kind == "link" && keys == LinkKeys) || (c.kind == "button" && keys == ButtonKeys)
    requires forall i :: 0 <= i < |keys| ==> SafeText(Prop(c, keys[i]))
    ensures var d := CellFromText(Content(c), attrs, uid);
            View(d) == View(c) && d.colSpan == attrs.colSpan && d.rowSpan == attrs.rowSpan
            && d.textAlign == attrs.textAlign && !d.removed && d.uid == uid
  {
    var body := Join(TagPairs(c, keys), " ");
    KeysAreWords();
    TagBodyShape(c, keys);
    var t := Content(c);
    assert t == "[" + c.kind + " " + body + "]";
    TagFound(t, c.kind, body);
    TagCellOfMatch(t, attrs, uid, CtaMatch(0, c.kind, |t| - 1));
    TagCellRead(c, keys, attrs, uid);
  }

  /** The cell read from a writable cell's content shows what the cell shows, and
      takes its spans and alignment from the attributes given. */
  lemma ContentRead(c: Cell, attrs: Attrs, uid: Uid)
    requires Writable(c)
    ensures var d := CellFromText(Content(c), attrs, uid);
            View(d) == View(c) && d.colSpan == attrs.colSpan && d.rowSpan == attrs.rowSpan
            && d.textAlign == attrs.textAlign && !d.removed && d.uid == uid
  {
    if c.kind == "text" {
      TextContentRead(c, attrs, uid);
    } else if c.kind == "link" {
      TagContentRead(c, LinkKeys, attrs, uid);
    } else {
      TagContentRead(c, ButtonKeys, attrs, uid);
    }
  }

  // ---------------------------------------------------------------- the block

  /** A written span pair is plain. */
  lemma SpanPairPlain(key: string, n: nat)
    requires key == "colSpan" || key == "rowSpan"
    ensures Plain(SpanPair(key, n))
  {
    var d := NatToString(n);
    assert Plain(d) by {
      forall m | 0 <= m < |d| ensures PlainChar(d[m]) {
        assert IsDigit(d[m]);
      }
    }
    PlainConcat(key, "=");
    PlainConcat(key + "=", d);
  }

  /** The written span attributes are plain. */
  lemma SpanAttrPlain(key: string, v: Option<SpanValue>)
    requires key == "colSpan" || key == "rowSpan"
    requires SpanOk(v)
    ensures forall i :: 0 <= i < |SpanAttr(key, v)| ==> Plain(SpanAttr(key, v)[i])
  {
    if SpanCount(v) > 1 {
      SpanAttrWritten(key, v);
      SpanPairPlain(key, v.value.n);
    }
  }

  /** The body of the block a cell writes is plain. */
  lemma BlockBodyPlain(c: Cell)
    requires SpanOk(c.colSpan) && SpanOk(c.rowSpan)
    ensures Plain(Join(SpanAttrs(c), ", "))
  {
    SpanAttrPlain("colSpan", c.colSpan);
    SpanAttrPlain("rowSpan", c.rowSpan);
    var a := SpanAttrs(c);
    forall i | 0 <= i < |a| ensures Plain(a[i]) {
      var col := SpanAttr("colSpan", c.colSpan);
      if i < |col| {
        assert a[i] == col[i];
      } else {
        assert a[i] == SpanAttr("rowSpan", c.rowSpan)[i - |col|];
      }
    }
    JoinPlain(a, ", ");
  }

  /** Without a block the spans read back as missing. */
  lemma NoBlockNoSpans(c: Cell)
    requires SpanAttrs(c) == []
    ensures ReadBack(c.colSpan) == None && ReadBack(c.rowSpan) == None
  {
    assert SpanAttr("colSpan", c.colSpan) == [];
  }

  /** The block of a writable cell's text gives back its spans above 1 and no
      alignment, and cutting it out leaves the content. */
  lemma CellTextRead(c: Cell)
    requires Writable(c)
    ensures CellAttrs(CellText(c)) == Attrs(ReadBack(c.colSpan), ReadBack(c.rowSpan), None)
    ensures CleanText(CellText(c)) == Content(c)
  {
    ContentShape(c);
    var t := Content(c);
    var a := SpanAttrs(c);
    CellTextParts(c);
    if a == [] {
      NoBraceNoBlock(t);
      NoBlockNoSpans(c);
    } else {
      var body := Join(a, ", ");
      BlockBodyPlain(c);
      JoinSolid(a, ", ");
      BlockAfterContent(t, body);
      SpanAttrsRead(c);
      TrimTrimmed(t);
    }
  }

  // ---------------------------------------------------------------- the cell

  /** `d` is what reading back the text of `c` gives: the same type and shown
      fields, the spans above 1, no alignment, and no flag. */
  predicate ReadsBackAs(d: Cell, c: Cell) {
    View(d) == View(c) && d.colSpan == ReadBack(c.colSpan) && d.rowSpan == ReadBack(c.rowSpan)
    && d.textAlign.None? && !d.removed
  }

  /** A writable cell, written and read back from any raw text that trims to its
      text, keeps its type and shown fields and its spans above 1, takes the uid it
      draws, has no alignment and is not flagged. */
  lemma CellReadsBack(c: Cell, raw: string, uid: Uid)
    requires Writable(c) && Trim(raw) == CellText(c)
    ensures ReadsBackAs(CellOf(raw, uid), c) && CellOf(raw, uid).uid == uid
  {
    CellTextRead(c);
    ContentRead(c, Attrs(ReadBack(c.colSpan), ReadBack(c.rowSpan), None), uid);
  }

  /** Text on one line that does not split a row. */
  predicate Inline(s: string) {
    forall m :: 0 <= m < |s| ==> s[m] != '|' && !IsLineTerminator(s[m])
  }

  /** The text the serialiser writes for a writable cell stays on its line, does not
      split the row, and is trimmed. */
  lemma CellTextShape(c: Cell)
    requires Writable(c)
    ensures Inline(CellText(c)) && IsTrimmed(CellText(c))
  {
    ContentShape(c);
    CellTextParts(c);
    var t := Content(c);
    if SpanAttrs(c) != [] {
      BlockBodyPlain(c);
      BracedShape(t, Join(SpanAttrs(c), ", "));
    }
  }

  /** Content followed by a block `{body}` with a plain body. */
  lemma BracedShape(t: string, body: string)
    requires Unbroken(t) && IsTrimmed(t) && Plain(body)
    ensures Inline(t + "{" + body + "}") && IsTrimmed(t + "{" + body + "}")
  {
    var x := t + "{" + body + "}";
    forall m | 0 <= m < |x| ensures x[m] != '|' && !IsLineTerminator(x[m]) {
      if m < |t| {
        assert x[m] == t[m];
      } else if |t| < m < |x| - 1 {
        assert x[m] == body[m - |t| - 1];
      }
    }
    if t != [] {
      assert x[0] == t[0];
    }
  }
}
