/** Reading back the attribute block the serialiser writes, `{colSpan=N, rowSpan=M}`:
    the block is the first brace group, each written span is read as the number it
    was, and cutting the block out leaves the content. */
module BlockRoundTrip {
  import opened Wrappers
  import opened Strings
  import opened StringFacts
  import opened Types
  import opened Regex
  import opened ParseAttributes
  import opened Stringify

  /** A span that reads back as the number written: missing, or a positive safe
      integer (JavaScript writes larger numbers inexactly or in exponent form). */
  predicate SpanOk(v: Option<SpanValue>) {
    v.None? || (v.value.SpanNum? && 1 <= v.value.n <= MaxSafeInteger)
  }

  /** What the parser gets back for a span: the span when it was written (above 1),
      nothing otherwise. */
  function ReadBack(v: Option<SpanValue>): (r: Option<SpanValue>)
    ensures SpanOk(v) ==> SpanCount(r) == SpanCount(v)
  {
    if SpanCount(v) > 1 then v else None
  }

  // ---------------------------------------------------------------- one pair

  /** A comma-free run that ends at a comma or at the end is what `[^,]+` takes. */
  lemma {:induction false} CommaEndOfRun(s: string, k: nat, e: nat)
    requires k <= e <= |s|
    requires forall m :: k <= m < e ==> s[m] != ','
    requires e == |s| || s[e] == ','
    ensures CommaEnd(s, k) == e
    decreases e - k
  {
    if k < e {
      CommaEndOfRun(s, k + 1, e);
    }
  }

  /** The text the serialiser writes for a span `n` under `key`. */
  function SpanPair(key: string, n: nat): string {
    key + "=" + NatToString(n)
  }

  /** Where the parts of a written span pair sit in the text. */
  lemma SpanPairLayout(s: string, a: nat, key: string, n: nat)
    requires a + |SpanPair(key, n)| <= |s| && s[a..a + |SpanPair(key, n)|] == SpanPair(key, n)
    ensures s[a..a + |key|] == key
    ensures s[a + |key|] == '='
    ensures forall m :: a + |key| + 1 <= m < a + |SpanPair(key, n)| ==> IsDigit(s[m])
    ensures s[a + |key| + 1..a + |SpanPair(key, n)|] == NatToString(n)
  {
    var w := SpanPair(key, n);
    var d := NatToString(n);
    assert s[a..a + |key|] == w[..|key|];
    assert s[a + |key|] == w[|key|];
    forall m | a + |key| + 1 <= m < a + |w| ensures s[m] == d[m - (a + |key| + 1)] {
      assert s[m] == w[m - a];
    }
  }

  /** The span keys are words. */
  lemma SpanKeyIsWord(key: string)
    requires key == "colSpan" || key == "rowSpan"
    ensures key != [] && forall j :: 0 <= j < |key| ==> IsWordChar(key[j])
  {
  }

  /** The pair pattern, tried at `p` (at the pair, or at the space before it), reads a
      written span pair whole: the value is the run of digits. */
  lemma PairOfSpan(s: string, p: nat, a: nat, key: string, n: nat)
    requires key != [] && forall j :: 0 <= j < |key| ==> IsWordChar(key[j])
    requires a + |SpanPair(key, n)| <= |s| && s[a..a + |SpanPair(key, n)|] == SpanPair(key, n)
    requires p == a || (p + 1 == a && s[p] == ' ')
    requires a + |SpanPair(key, n)| == |s| || s[a + |SpanPair(key, n)|] == ','
    ensures PairAt(s, p) == Some(PairMatch(key, NatToString(n), a + |SpanPair(key, n)|))
  {
    var w := a + |key|;
    var e := a + |SpanPair(key, n)|;
    SpanPairLayout(s, a, key, n);
    WordAt(s, a, key);
    PairOfWordAndDigits(s, p, a, w, e);
  }

  /** The characters of a word written at `a` are word characters. */
  lemma WordAt(s: string, a: nat, key: string)
    requires forall j :: 0 <= j < |key| ==> IsWordChar(key[j])
    requires a + |key| <= |s| && s[a..a + |key|] == key
    ensures forall m :: a <= m < a + |key| ==> IsWordChar(s[m])
  {
    forall m | a <= m < a + |key| ensures IsWordChar(s[m]) {
      assert s[m] == s[a..a + |key|][m - a];
    }
  }

  /** A word, `=`, and a run of digits up to a comma or the end: the pattern tried
      at the word, or at one space before it, matches key and digits. */
  lemma PairOfWordAndDigits(s: string, p: nat, a: nat, w: nat, e: nat)
    requires a < w && w + 1 < e <= |s|
    requires p == a || (p + 1 == a && s[p] == ' ')
    requires forall m :: a <= m < w ==> IsWordChar(s[m])
    requires s[w] == '='
    requires forall m :: w + 1 <= m < e ==> IsDigit(s[m])
    requires e == |s| || s[e] == ','
    ensures PairAt(s, p) == Some(PairMatch(s[a..w], s[w + 1..e], e))
  {
    KeyRun(s, p, a, w);
    DigitRun(s, w + 1, e);
    PairAtOfRuns(s, p, a, w, e);
  }

  /** The pair pattern, given where each of its runs ends: key `s[a..w]`, `=` at `w`,
      and a comma-free value `s[w+1..e]`. */
  lemma PairAtOfRuns(s: string, p: nat, a: nat, w: nat, e: nat)
    requires p <= a < w && w + 1 < e <= |s|
    requires WsEnd(s, p) == a && WordEnd(s, a) == w && WsEnd(s, w) == w && s[w] == '='
    requires WsEnd(s, w + 1) == w + 1 && s[w + 1] != '"' && s[w + 1] != ','
    requires CommaEnd(s, w + 1) == e
    ensures PairAt(s, p) == Some(PairMatch(s[a..w], s[w + 1..e], e))
  {
  }

  /** The white space and word runs around a key. */
  lemma KeyRun(s: string, p: nat, a: nat, w: nat)
    requires a < w < |s|
    requires p == a || (p + 1 == a && s[p] == ' ')
    requires forall m :: a <= m < w ==> IsWordChar(s[m])
    requires s[w] == '='
    ensures WsEnd(s, p) == a && WordEnd(s, a) == w && WsEnd(s, w) == w
  {
    assert !IsWhitespace(s[a]);
    assert WsEnd(s, a) == a;
    assert AllWord(s[a..w]);
    WordEndOfWordRun(s, a, w);
  }

  /** The value run of digits: no white space before it, and `[^,]+` takes it whole. */
  lemma DigitRun(s: string, q: nat, e: nat)
    requires q < e <= |s|
    requires forall m :: q <= m < e ==> IsDigit(s[m])
    requires e == |s| || s[e] == ','
    ensures WsEnd(s, q) == q && s[q] != '"' && s[q] != ','
    ensures CommaEnd(s, q) == e
  {
    assert IsDigit(s[q]);
    CommaEndOfRun(s, q, e);
  }

  /** Nothing matches at the end of the text. */
  lemma NoPairAtEnd(s: string)
    ensures NextPair(s, |s|).None?
  {
    assert PairAt(s, |s|).None?;
  }

  /** A written span is assigned as the number it was. */
  lemma AssignSpan(acc: Attrs, key: string, n: nat)
    requires key == "colSpan" || key == "rowSpan"
    ensures key == "colSpan" ==> AssignPair(acc, key, NatToString(n)) == acc.(colSpan := Some(SpanNum(n)))
    ensures key == "rowSpan" ==> AssignPair(acc, key, NatToString(n)) == acc.(rowSpan := Some(SpanNum(n)))
  {
    SpanKeyKept(key);
    WrittenSpanValue(n);
    var v := StripQuotes(Trim(NatToString(n)));
    assert AssignPair(acc, key, NatToString(n))
        == if key == "colSpan" then acc.(colSpan := Some(Coerce(v))) else acc.(rowSpan := Some(Coerce(v)));
  }

  /** A span key passes the allow-list unchanged. */
  lemma SpanKeyKept(key: string)
    requires key == "colSpan" || key == "rowSpan"
    ensures Trim(key) == key && Allowed(key)
  {
    assert IsTrimmed(key);
    TrimTrimmed(key);
  }

  /** The digits of a written span keep their text through trimming and quote
      stripping, and `Number` reads them as the span. */
  lemma WrittenSpanValue(n: nat)
    ensures StripQuotes(Trim(NatToString(n))) == NatToString(n)
    ensures Coerce(NatToString(n)) == SpanNum(n)
  {
    var d := NatToString(n);
    assert IsDigit(d[0]) && IsDigit(d[|d| - 1]);
    DigitsKept(d);
    NatTextNumber(n);
  }

  /** Text that starts and ends with a digit is left as it is by trimming and quote stripping. */
  lemma DigitsKept(d: string)
    requires d != [] && IsDigit(d[0]) && IsDigit(d[|d| - 1])
    ensures StripQuotes(Trim(d)) == d
  {
    DigitNotSpace(d[0]);
    DigitNotSpace(d[|d| - 1]);
    TrimTrimmed(d);
    Unquoted(d);
  }

  lemma DigitNotSpace(c: char)
    requires IsDigit(c)
    ensures !IsWhitespace(c) && c != '"'
  {
  }

  /** Text that does not start with a double quote is not stripped. */
  lemma Unquoted(v: string)
    requires v != [] && v[0] != '"'
    ensures StripQuotes(v) == v
  {
  }

  /** `Number` reads the decimal text of a natural number as that number. */
  lemma NatTextNumber(n: nat)
    ensures ToNumber(NatToString(n)) == Some(n)
  {
    ToNumberOfIntToString(n);
  }

  // ---------------------------------------------------------------- the pair loop

  lemma PairsStep(s: string, from: nat, acc: Attrs, p: nat, m: PairMatch)
    requires from <= |s| && NextPair(s, from) == Some((p, m))
    ensures PairsFrom(s, from, acc) == PairsFrom(s, m.end, AssignPair(acc, m.key, m.value))
  {
  }

  lemma PairsDone(s: string, from: nat, acc: Attrs)
    requires from <= |s| && NextPair(s, from).None?
    ensures PairsFrom(s, from, acc) == acc
  {
  }

  lemma PairsSkip(s: string, from: nat, acc: Attrs)
    requires from < |s| && NextPair(s, from) == NextPair(s, from + 1)
    ensures PairsFrom(s, from, acc) == PairsFrom(s, from + 1, acc)
  {
  }

  // ---------------------------------------------------------------- the block body

  /** The matches in a block body with one written span: the pair, then nothing. */
  lemma OneSpanMatches(key: string, n: nat)
    requires key != [] && forall j :: 0 <= j < |key| ==> IsWordChar(key[j])
    ensures var s := SpanPair(key, n);
            NextPair(s, 0) == Some((0, PairMatch(key, NatToString(n), |s|))) && NextPair(s, |s|).None?
  {
    var s := SpanPair(key, n);
    assert s[0..|s|] == s;
    PairOfSpan(s, 0, 0, key, n);
    NoPairAtEnd(s);
  }

  /** A block body with one written span. */
  lemma OneSpanRead(key: string, n: nat)
    requires key == "colSpan" || key == "rowSpan"
    ensures BlockAttrs(SpanPair(key, n)) == AssignPair(NoAttrs, key, NatToString(n))
  {
    SpanKeyIsWord(key);
    OnePairRead(key, n);
  }

  /** The pair loop over one written pair assigns it. */
  lemma OnePairRead(key: string, n: nat)
    requires key != [] && forall j :: 0 <= j < |key| ==> IsWordChar(key[j])
    ensures BlockAttrs(SpanPair(key, n)) == AssignPair(NoAttrs, key, NatToString(n))
  {
    var s := SpanPair(key, n);
    OneSpanMatches(key, n);
    PairsStep(s, 0, NoAttrs, 0, PairMatch(key, NatToString(n), |s|));
    PairsDone(s, |s|, AssignPair(NoAttrs, key, NatToString(n)));
  }

  /** Nothing matches at a comma. */
  lemma NoPairAtComma(s: string, e: nat)
    requires e < |s| && s[e] == ','
    ensures PairAt(s, e).None?
  {
    assert WsEnd(s, e) == e;
    assert WordEnd(s, e) == e;
  }

  /** Where the two pairs and the separator sit in a body with both spans. */
  lemma CommaLayout(s1: string, s2: string)
    ensures var s := s1 + ", " + s2;
            s[0..|s1|] == s1 && s[|s1|] == ',' && s[|s1| + 1] == ' ' && s[|s1| + 2..] == s2
  {
  }

  /** The matches in a text laid out as a pair, `, `, another pair. */
  lemma TwoPairsIn(s: string, e: nat, k1: string, n: nat, k2: string, m: nat)
    requires k1 != [] && forall j :: 0 <= j < |k1| ==> IsWordChar(k1[j])
    requires k2 != [] && forall j :: 0 <= j < |k2| ==> IsWordChar(k2[j])
    requires e + 2 <= |s|
    requires s[0..e] == SpanPair(k1, n) && s[e] == ',' && s[e + 1] == ' '
    requires s[e + 2..] == SpanPair(k2, m)
    ensures NextPair(s, 0) == Some((0, PairMatch(k1, NatToString(n), e)))
    ensures NextPair(s, e) == NextPair(s, e + 1)
    ensures NextPair(s, e + 1) == Some((e + 1, PairMatch(k2, NatToString(m), |s|)))
    ensures NextPair(s, |s|).None?
  {
    FirstOfTwo(s, e, k1, n);
    SecondOfTwo(s, e, k2, m);
    NoPairAtEnd(s);
  }

  /** The first pair of two is matched at 0 and ends at the comma. */
  lemma FirstOfTwo(s: string, e: nat, k1: string, n: nat)
    requires k1 != [] && forall j :: 0 <= j < |k1| ==> IsWordChar(k1[j])
    requires e < |s| && s[0..e] == SpanPair(k1, n) && s[e] == ','
    ensures NextPair(s, 0) == Some((0, PairMatch(k1, NatToString(n), e)))
  {
    PairOfSpan(s, 0, 0, k1, n);
    NextPairHere(s, 0, PairMatch(k1, NatToString(n), e));
  }

  /** The second pair of two: nothing at the comma, then the pair from the space on. */
  lemma SecondOfTwo(s: string, e: nat, k2: string, m: nat)
    requires k2 != [] && forall j :: 0 <= j < |k2| ==> IsWordChar(k2[j])
    requires e + 2 <= |s| && s[e] == ',' && s[e + 1] == ' '
    requires s[e + 2..] == SpanPair(k2, m)
    ensures NextPair(s, e) == NextPair(s, e + 1)
    ensures NextPair(s, e + 1) == Some((e + 1, PairMatch(k2, NatToString(m), |s|)))
  {
    NoPairAtComma(s, e);
    NextPairPast(s, e);
    LastPairAt(s, e + 1, k2, m);
  }

  /** A written span pair after one space, up to the end, is matched from the space. */
  lemma LastPairAt(s: string, p: nat, k: string, n: nat)
    requires k != [] && forall j :: 0 <= j < |k| ==> IsWordChar(k[j])
    requires p + 1 <= |s| && s[p] == ' ' && s[p + 1..] == SpanPair(k, n)
    ensures NextPair(s, p) == Some((p, PairMatch(k, NatToString(n), |s|)))
  {
    assert s[p + 1..p + 1 + |SpanPair(k, n)|] == SpanPair(k, n);
    PairOfSpan(s, p, p + 1, k, n);
    NextPairHere(s, p, PairMatch(k, NatToString(n), |s|));
  }

  /** A position where the pair pattern matches is where the scan stops. */
  lemma NextPairHere(s: string, p: nat, m: PairMatch)
    requires p <= |s| && PairAt(s, p) == Some(m)
    ensures NextPair(s, p) == Some((p, m))
  {
  }

  /** A position where the pair pattern fails is stepped over. */
  lemma NextPairPast(s: string, p: nat)
    requires p < |s| && PairAt(s, p).None?
    ensures NextPair(s, p) == NextPair(s, p + 1)
  {
  }

  /** The pair loop over a text laid out as a pair, `, `, another pair assigns both in order. */
  lemma TwoPairsRead(s: string, e: nat, k1: string, n: nat, k2: string, m: nat)
    requires k1 != [] && forall j :: 0 <= j < |k1| ==> IsWordChar(k1[j])
    requires k2 != [] && forall j :: 0 <= j < |k2| ==> IsWordChar(k2[j])
    requires e + 2 <= |s|
    requires s[0..e] == SpanPair(k1, n) && s[e] == ',' && s[e + 1] == ' '
    requires s[e + 2..] == SpanPair(k2, m)
    ensures BlockAttrs(s) == AssignPair(AssignPair(NoAttrs, k1, NatToString(n)), k2, NatToString(m))
  {
    TwoPairsIn(s, e, k1, n, k2, m);
    ReadTwo(s, e, PairMatch(k1, NatToString(n), e), PairMatch(k2, NatToString(m), |s|));
  }

  /** The pair loop over a text with a pair at 0 ending at a comma, a pair from the
      next position on, and nothing after: both are assigned in order. */
  lemma ReadTwo(s: string, e: nat, m1: PairMatch, m2: PairMatch)
    requires e < |s|
    requires NextPair(s, 0) == Some((0, m1)) && m1.end == e
    requires NextPair(s, e) == NextPair(s, e + 1)
    requires NextPair(s, e + 1) == Some((e + 1, m2)) && m2.end == |s|
    requires NextPair(s, |s|).None?
    ensures BlockAttrs(s) == AssignPair(AssignPair(NoAttrs, m1.key, m1.value), m2.key, m2.value)
  {
    var a1 := AssignPair(NoAttrs, m1.key, m1.value);
    PairsStep(s, 0, NoAttrs, 0, m1);
    PairsSkip(s, e, a1);
    PairsStep(s, e + 1, a1, e + 1, m2);
    PairsDone(s, |s|, AssignPair(a1, m2.key, m2.value));
  }

  /** A block body with both spans, column span first. */
  lemma TwoSpansRead(n: nat, m: nat)
    ensures BlockAttrs(SpanPair("colSpan", n) + ", " + SpanPair("rowSpan", m))
         == Attrs(Some(SpanNum(n)), Some(SpanNum(m)), None)
  {
    var s1 := SpanPair("colSpan", n);
    var s2 := SpanPair("rowSpan", m);
    CommaLayout(s1, s2);
    SpanKeyIsWord("colSpan");
    SpanKeyIsWord("rowSpan");
    TwoPairsRead(s1 + ", " + s2, |s1|, "colSpan", n, "rowSpan", m);
    AssignSpan(NoAttrs, "colSpan", n);
    AssignSpan(NoAttrs.(colSpan := Some(SpanNum(n))), "rowSpan", m);
  }

  /** A written span is the pair of its key and its number. */
  lemma SpanAttrWritten(key: string, v: Option<SpanValue>)
    requires SpanOk(v) && SpanCount(v) > 1
    ensures v.Some? && v.value.SpanNum? && v.value.n > 1
    ensures SpanAttr(key, v) == [SpanPair(key, v.value.n)]
  {
    assert IntToString(v.value.n) == NatToString(v.value.n);
  }

  /** The block the serialiser writes for a cell reads back as the spans above 1,
      each the number it was, and no alignment. */
  lemma SpanAttrsRead(c: Cell)
    requires SpanOk(c.colSpan) && SpanOk(c.rowSpan)
    requires SpanAttrs(c) != []
    ensures BlockAttrs(Join(SpanAttrs(c), ", ")) == Attrs(ReadBack(c.colSpan), ReadBack(c.rowSpan), None)
  {
    var col := SpanCount(c.colSpan) > 1;
    var row := SpanCount(c.rowSpan) > 1;
    if col {
      SpanAttrWritten("colSpan", c.colSpan);
    }
    if row {
      SpanAttrWritten("rowSpan", c.rowSpan);
    }
    if col && row {
      TwoSpansRead(c.colSpan.value.n, c.rowSpan.value.n);
    } else if col {
      OneSpanRead("colSpan", c.colSpan.value.n);
      AssignSpan(NoAttrs, "colSpan", c.colSpan.value.n);
    } else {
      OneSpanRead("rowSpan", c.rowSpan.value.n);
      AssignSpan(NoAttrs, "rowSpan", c.rowSpan.value.n);
    }
  }

  // ---------------------------------------------------------------- finding the block

  /** A text with no `{` has no block: no attributes, and the text stays. */
  lemma NoBraceNoBlock(text: string)
    requires '{' !in text
    ensures CellAttrs(text) == NoAttrs && CleanText(text) == text
  {
    assert FindBrace(text, 0).None?;
  }

  /** After content without `{`, a brace group whose body holds no `}` and no line
      terminator is the block: its body gives the attributes and cutting it out
      leaves the content, trimmed. */
  lemma BlockAfterContent(content: string, body: string)
    requires '{' !in content
    requires body != [] && forall m :: 0 <= m < |body| ==> body[m] != '}' && !IsLineTerminator(body[m])
    ensures var x := content + "{" + body + "}";
            CellAttrs(x) == BlockAttrs(body) && CleanText(x) == Trim(content)
  {
    var x := content + "{" + body + "}";
    BraceIsFirst(content, body);
    BlockPieces(x, content, body);
    BlockOfPieces(x, |content|, |x| - 1, content, body);
  }

  /** The first brace group `x[i..j+1]` around `body`, with `content` around it. */
  lemma BlockOfPieces(x: string, i: nat, j: nat, content: string, body: string)
    requires FindBrace(x, 0) == Some((i, j)) && j > i + 1
    requires x[i + 1..j] == body && x[..i] + x[j + 1..] == content
    ensures CellAttrs(x) == BlockAttrs(body) && CleanText(x) == Trim(content)
  {
    CutIsContent(x, i, j, content);
    BlockAt(x, i, j, content, body);
  }

  /** A non-empty first brace group `x[i..j+1]`: its body gives the attributes and
      cutting it out gives the text. */
  lemma BlockAt(x: string, i: nat, j: nat, content: string, body: string)
    requires FindBrace(x, 0) == Some((i, j)) && j > i + 1
    requires x[i + 1..j] == body && CutBlock(x, i, j) == Trim(content)
    ensures CellAttrs(x) == BlockAttrs(body) && CleanText(x) == Trim(content)
  {
    FirstGroupIsBlock(x, i, j);
    BlockParts(x, i, j);
  }

  lemma BlockPieces(x: string, content: string, body: string)
    requires x == content + "{" + body + "}" && body != []
    ensures x[|content| + 1..|x| - 1] == body
    ensures x[..|content|] + x[|x|..] == content && |x| - 1 > |content| + 1
  {
    assert x[..|content|] == content;
  }

  /** Cutting out the leftmost brace group leaves what is around it. */
  lemma CutIsContent(x: string, i: nat, j: nat, content: string)
    requires FindBrace(x, 0) == Some((i, j))
    requires x[..i] + x[j + 1..] == content
    ensures CutBlock(x, i, j) == Trim(content)
  {
    ReplaceCutsMatch(x, i, j);
  }

  /** The leftmost brace group of `content{body}` is the written block. */
  lemma BraceIsFirst(content: string, body: string)
    requires '{' !in content
    requires body != [] && forall m :: 0 <= m < |body| ==> body[m] != '}' && !IsLineTerminator(body[m])
    ensures var x := content + "{" + body + "}";
            FindBrace(x, 0) == Some((|content|, |x| - 1))
  {
    var x := content + "{" + body + "}";
    var i := |content|;
    var j := |x| - 1;
    assert IsBraceMatch(x, i, j) by {
      forall m | i + 1 <= m < j ensures x[m] != '}' && !IsLineTerminator(x[m]) {
        assert x[m] == body[m - i - 1];
      }
    }
    FindBraceLeftmost(x, 0);
    var r := FindBrace(x, 0);
    assert r.Some?;
    var p := r.value.0;
    var q := r.value.1;
    assert p == i;
  }
}
