/** The attribute block of a cell, `{colSpan=2, rowSpan="3", textAlign=center}`:
    the first brace group, when its content is non-empty, is cut out of the cell
    text (later groups are never tried) and its `key=value` pairs are read through
    an allow-list of keys. */
module ParseAttributes {
  import opened Wrappers
  import opened Strings
  import opened StringFacts
  import opened Types
  import opened Regex

  /** The attributes a block may set; a key that is never assigned stays `None`. */
  datatype Attrs = Attrs(colSpan: Option<SpanValue>, rowSpan: Option<SpanValue>, textAlign: Option<string>)

  const NoAttrs: Attrs := Attrs(None, None, None)

  /** The allow-list of block keys; `align` is not on it. */
  predicate Allowed(key: string) {
    key == "colSpan" || key == "textAlign" || key == "rowSpan"
  }

  /** `value.slice(1, -1)` when the value starts and ends with a double quote;
      a lone `"` starts and ends with one and slices to "". */
  function StripQuotes(v: string): string {
    if |v| >= 1 && v[0] == '"' && v[|v| - 1] == '"' then
      if |v| >= 2 then v[1..|v| - 1] else ""
    else v
  }

  /** `Number(value)` kept when it is not NaN, the text otherwise. */
  function Coerce(value: string): (r: SpanValue)
    ensures r.SpanNum? <==> ToNumber(value).Some?
    ensures r.SpanNum? ==> ToNumber(value) == Some(r.n)
    ensures r.SpanStr? ==> r.s == value
  {
    match ToNumber(value)
    case Some(n) => SpanNum(n)
    case None => SpanStr(value)
  }

  /** One pass of the pair loop: a key off the allow-list is skipped; otherwise the
      trimmed value loses its surrounding quotes and spans are coerced to numbers. */
  function AssignPair(a: Attrs, key: string, raw: string): Attrs {
    var k := Trim(key);
    if !Allowed(k) then a
    else
      var v := StripQuotes(Trim(raw));
      if k == "colSpan" then a.(colSpan := Some(Coerce(v)))
      else if k == "rowSpan" then a.(rowSpan := Some(Coerce(v)))
      else a.(textAlign := Some(v))
  }

  /** The pair loop from scan position `from`, with the attributes gathered so far. */
  function PairsFrom(s: string, from: nat, acc: Attrs): Attrs
    requires from <= |s|
    decreases |s| - from
  {
    match NextPair(s, from)
    case None => acc
    case Some((_, m)) => PairsFrom(s, m.end, AssignPair(acc, m.key, m.value))
  }

  /** The attributes of a block body; the scan starts at position 0. */
  function BlockAttrs(s: string): Attrs {
    PairsFrom(s, 0, NoAttrs)
  }

  // ---------------------------------------------------------------- replace

  /** `s[p..]` starts with `pat`. */
  predicate OccursAt(s: string, pat: string, p: nat) {
    p + |pat| <= |s| && s[p..p + |pat|] == pat
  }

  /** The first occurrence of `pat` in `s` at or after `from`. */
  function IndexOfSub(s: string, pat: string, from: nat): (r: Option<nat>)
    ensures r.Some? ==> from <= r.value && OccursAt(s, pat, r.value)
    ensures r.Some? ==> forall p :: from <= p < r.value ==> !OccursAt(s, pat, p)
    ensures r.None? ==> forall p :: from <= p ==> !OccursAt(s, pat, p)
    decreases |s| - from
  {
    if from + |pat| > |s| then None
    else if s[from..from + |pat|] == pat then Some(from)
    else IndexOfSub(s, pat, from + 1)
  }

  /** `s.replace(pat, rep)` with a string pattern: only the first occurrence. */
  function ReplaceFirst(s: string, pat: string, rep: string): string {
    match IndexOfSub(s, pat, 0)
    case None => s
    case Some(i) => s[..i] + rep + s[i + |pat|..]
  }

  /** Removing the text of the leftmost brace match removes the match itself: an
      earlier copy of that text would be an earlier match. */
  lemma ReplaceCutsMatch(s: string, i: nat, j: nat)
    requires FindBrace(s, 0) == Some((i, j))
    ensures ReplaceFirst(s, s[i..j + 1], "") == s[..i] + s[j + 1..]
  {
    FirstCopyAt(s, i, j);
    CutFound(s, s[i..j + 1], i, j);
  }

  /** The first occurrence of the text of the leftmost brace match is that match. */
  lemma FirstCopyAt(s: string, i: nat, j: nat)
    requires FindBrace(s, 0) == Some((i, j))
    ensures IndexOfSub(s, s[i..j + 1], 0) == Some(i)
  {
    var pat := s[i..j + 1];
    FindBraceLeftmost(s, 0);
    assert OccursAt(s, pat, i);
    var r := IndexOfSub(s, pat, 0);
    if r.value < i {
      CopyIsBraceMatch(s, i, j, r.value);
      assert false;
    }
  }

  /** Replacing a first occurrence found at `i` cuts it out. */
  lemma CutFound(s: string, pat: string, i: nat, j: nat)
    requires IndexOfSub(s, pat, 0) == Some(i) && i <= j < |s| && |pat| == j + 1 - i
    ensures ReplaceFirst(s, pat, "") == s[..i] + s[j + 1..]
  {
    assert s[..i] + "" + s[i + |pat|..] == s[..i] + s[j + 1..];
  }

  /** A copy of the text of a brace match is itself a brace match. */
  lemma CopyIsBraceMatch(s: string, i: nat, j: nat, p: nat)
    requires IsBraceMatch(s, i, j) && OccursAt(s, s[i..j + 1], p)
    ensures IsBraceMatch(s, p, p + (j - i))
  {
    var pat := s[i..j + 1];
    forall m | p + 1 <= m < p + (j - i)
      ensures s[m] != '}' && !IsLineTerminator(s[m])
    {
      assert s[m] == pat[m - p] == s[i + (m - p)];
    }
    assert s[p] == pat[0] && s[p + (j - i)] == pat[j - i];
  }

  // ---------------------------------------------------------------- the block

  /** The attribute block of a trimmed cell, when there is one with non-empty
      content: the index of `{` and of `}`. Only the first brace group is looked at:
      when its body is empty there is no block, and later groups are never tried. */
  function BlockOf(trimmed: string): (r: Option<(nat, nat)>)
    ensures r.Some? ==> r.value.0 + 1 < r.value.1 < |trimmed|
  {
    var m := FindBrace(trimmed, 0);
    if m.Some? && m.value.1 > m.value.0 + 1 then m else None
  }

  /** The attributes read from the block of a trimmed cell. */
  function CellAttrs(trimmed: string): Attrs {
    var b := BlockOf(trimmed);
    if b.None? then NoAttrs else BlockAttrs(trimmed[b.value.0 + 1..b.value.1])
  }

  /** The cell text without its block, trimmed again; with no block, the text as it was. */
  function CleanText(trimmed: string): string {
    var b := BlockOf(trimmed);
    if b.None? then trimmed else CutBlock(trimmed, b.value.0, b.value.1)
  }

  /** The text with the brace group `trimmed[i..j+1]` replaced by nothing, trimmed again. */
  function CutBlock(trimmed: string, i: nat, j: nat): string
    requires i <= j < |trimmed|
  {
    Trim(ReplaceFirst(trimmed, trimmed[i..j + 1], ""))
  }

  /** The attribute-block reader as the source runs it: one regex match, then the
      pair loop over the group. */
  method ParseSpecificAttributes(trimmed: string) returns (attrObj: Attrs, text: string)
    ensures attrObj == CellAttrs(trimmed)
    ensures text == CleanText(trimmed)
  {
    var matchAttributes := FindBrace(trimmed, 0);
    attrObj := NoAttrs;
    text := trimmed;
    if matchAttributes.Some? && matchAttributes.value.1 > matchAttributes.value.0 + 1 {
      var i := matchAttributes.value.0;
      var j := matchAttributes.value.1;
      FirstGroupIsBlock(trimmed, i, j);
      BlockParts(trimmed, i, j);
      text := CutBlock(trimmed, i, j);
      attrObj := ReadPairs(trimmed[i + 1..j]);
    } else {
      NoBlockParts(trimmed);
    }
  }

  /** Without a non-empty first brace group there are no attributes and the text stays. */
  lemma NoBlockParts(trimmed: string)
    requires FindBrace(trimmed, 0).None? || FindBrace(trimmed, 0).value.1 <= FindBrace(trimmed, 0).value.0 + 1
    ensures CellAttrs(trimmed) == NoAttrs
    ensures CleanText(trimmed) == trimmed
  {
    assert BlockOf(trimmed).None?;
  }

  /** A non-empty first brace group is the block. */
  lemma FirstGroupIsBlock(trimmed: string, i: nat, j: nat)
    requires FindBrace(trimmed, 0) == Some((i, j)) && j > i + 1
    ensures BlockOf(trimmed) == Some((i, j))
  {
  }

  /** The block's body gives the attributes and cutting the block out gives the text. */
  lemma BlockParts(trimmed: string, i: nat, j: nat)
    requires BlockOf(trimmed) == Some((i, j))
    ensures CellAttrs(trimmed) == BlockAttrs(trimmed[i + 1..j])
    ensures CleanText(trimmed) == CutBlock(trimmed, i, j)
  {
    BlockAttrsPart(trimmed, i, j);
  }

  lemma BlockAttrsPart(trimmed: string, i: nat, j: nat)
    requires BlockOf(trimmed) == Some((i, j))
    ensures CellAttrs(trimmed) == BlockAttrs(trimmed[i + 1..j])
  {
  }

  /** The loop over `ATTRIBUTE_PAIR_REGEX.exec`, with the scan position reset to 0. */
  method ReadPairs(attributeString: string) returns (attrObj: Attrs)
    ensures attrObj == BlockAttrs(attributeString)
  {
    attrObj := NoAttrs;
    var lastIndex := 0;
    var found := NextPair(attributeString, lastIndex);
    while found.Some?
      invariant lastIndex <= |attributeString|
      invariant found == NextPair(attributeString, lastIndex)
      invariant PairsFrom(attributeString, lastIndex, attrObj) == BlockAttrs(attributeString)
      decreases |attributeString| - lastIndex
    {
      var m := found.value.1;
      lastIndex := m.end;
      found := NextPair(attributeString, lastIndex);
      if !Allowed(Trim(m.key)) {
        continue;
      }
      attrObj := AssignPair(attrObj, m.key, m.value);
    }
  }
}
