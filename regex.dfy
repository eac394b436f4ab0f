/** Recognisers for the four regular expressions the parser uses, written out
    with the matching order of JavaScript's backtracking engine:

      CURLY_BRACE     /\{(.*?)\}/                      the attribute block
      CTA             /\[(button|link)(.*?)\]/         a button or link tag
      ATTRIBUTE       /(\w+)="(.*?)"/g                 a tag attribute
      ATTRIBUTE_PAIR  /\s*(\w+)\s*=\s*(".*?"|[^,]+)/g  a pair of the attribute block

    `.` matches every character except a line terminator, `\s` is white space and
    `\w` is an ASCII word character. Each recogniser tries one start position; a
    search tries the start positions from left to right and stops at the first
    that matches, as `String.prototype.match` and `RegExp.prototype.exec` do. */
module Regex {
  import opened Wrappers
  import opened Strings
  import opened StringFacts

  // ---------------------------------------------------------------- runs

  /** The end of the run of white space starting at `k` (greedy `\s*`). */
  function WsEnd(s: string, k: nat): (e: nat)
    requires k <= |s|
    ensures k <= e <= |s| && AllWhitespace(s[k..e]) && (e == |s| || !IsWhitespace(s[e]))
    decreases |s| - k
  {
    if k < |s| && IsWhitespace(s[k]) then WsEnd(s, k + 1) else k
  }

  predicate AllWord(s: string) {
    forall m :: 0 <= m < |s| ==> IsWordChar(s[m])
  }

  /** The end of the run of word characters starting at `k` (greedy `\w+`). */
  function WordEnd(s: string, k: nat): (e: nat)
    requires k <= |s|
    ensures k <= e <= |s| && AllWord(s[k..e]) && (e == |s| || !IsWordChar(s[e]))
    decreases |s| - k
  {
    if k < |s| && IsWordChar(s[k]) then WordEnd(s, k + 1) else k
  }

  /** The end of the run of non-commas starting at `k` (greedy `[^,]+`). */
  function CommaEnd(s: string, k: nat): (e: nat)
    requires k <= |s|
    ensures k <= e <= |s| && ',' !in s[k..e] && (e == |s| || s[e] == ',')
    decreases |s| - k
  {
    if k < |s| && s[k] != ',' then CommaEnd(s, k + 1) else k
  }

  // ---------------------------------------------------------------- lazy `.*?` up to a stop character

  /** `s[a..b]` can be consumed by `.*?` and holds no `stop`. */
  predicate Dotted(s: string, a: nat, b: nat, stop: char)
    requires a <= b <= |s|
  {
    forall m :: a <= m < b ==> s[m] != stop && !IsLineTerminator(s[m])
  }

  /** `(.*?)stop` from position `k`: the index of the closing `stop`. */
  function LazyEnd(s: string, k: nat, stop: char): (r: Option<nat>)
    requires k <= |s|
    ensures r.Some? ==> k <= r.value < |s| && s[r.value] == stop && Dotted(s, k, r.value, stop)
    ensures r.None? ==> forall j :: k <= j < |s| && s[j] == stop ==> !Dotted(s, k, j, stop)
    decreases |s| - k
  {
    if k == |s| then None
    else if s[k] == stop then Some(k)
    else if IsLineTerminator(s[k]) then None
    else LazyEnd(s, k + 1, stop)
  }

  /** The lazy match closes at the first `stop`, and at nothing else. */
  lemma LazyEndIff(s: string, k: nat, stop: char, j: nat)
    requires k <= |s|
    ensures LazyEnd(s, k, stop) == Some(j) <==> (k <= j < |s| && s[j] == stop && Dotted(s, k, j, stop))
  {
    var r := LazyEnd(s, k, stop);
    if k <= j < |s| && s[j] == stop && Dotted(s, k, j, stop) {
      assert r.Some?;
      assert r.value == j;
    }
  }

  // ---------------------------------------------------------------- CURLY_BRACE

  /** `/\{(.*?)\}/` matches `s[i..j+1]` when tried at `i`; the group is `s[i+1..j]`. */
  predicate IsBraceMatch(s: string, i: nat, j: nat) {
    i < j < |s| && s[i] == '{' && s[j] == '}' && Dotted(s, i + 1, j, '}')
  }

  /** The brace pattern tried at `i`: the index of the closing brace. */
  function BraceAt(s: string, i: nat): (r: Option<nat>)
    ensures r.Some? ==> IsBraceMatch(s, i, r.value)
    ensures r.None? ==> forall j :: !IsBraceMatch(s, i, j)
  {
    if i < |s| && s[i] == '{' then
      var r := LazyEnd(s, i + 1, '}');
      assert r.None? ==> forall j :: !IsBraceMatch(s, i, j) by {
        forall j: nat | IsBraceMatch(s, i, j) ensures r.Some? {
          LazyEndIff(s, i + 1, '}', j);
        }
      }
      r
    else None
  }

  /** `s.match(CURLY_BRACE_REGEX)` searching from `from`: the leftmost match,
      as the pair (index of `{`, index of `}`). */
  function FindBrace(s: string, from: nat): (r: Option<(nat, nat)>)
    ensures r.Some? ==> from <= r.value.0 && IsBraceMatch(s, r.value.0, r.value.1)
    decreases |s| - from
  {
    if from >= |s| then None
    else match BraceAt(s, from)
      case Some(j) => Some((from, j))
      case None => FindBrace(s, from + 1)
  }

  /** The brace group `FindBrace` finds is the leftmost one, and when it finds none
      there is none. */
  lemma {:induction false} FindBraceLeftmost(s: string, from: nat)
    ensures var r := FindBrace(s, from);
            (r.Some? ==> forall p, q :: from <= p < r.value.0 ==> !IsBraceMatch(s, p, q))
            && (r.None? ==> forall p, q :: from <= p ==> !IsBraceMatch(s, p, q))
    decreases |s| - from
  {
    if from < |s| && BraceAt(s, from).None? {
      FindBraceLeftmost(s, from + 1);
    }
  }

  // ---------------------------------------------------------------- CTA

  /** `/\[(button|link)(.*?)\]/` matches `s[i..j+1]` when tried at `i`, with `tag` as
      the first group and `s[i+1+|tag|..j]` as the second. */
  predicate IsCtaMatch(s: string, i: nat, tag: string, j: nat) {
    && (tag == "button" || tag == "link")
    && i + 1 + |tag| <= j < |s|
    && s[i] == '[' && s[i + 1..i + 1 + |tag|] == tag
    && s[j] == ']' && Dotted(s, i + 1 + |tag|, j, ']')
  }

  /** `s[i..]` starts with `tag`. */
  predicate TagAt(s: string, i: nat, tag: string) {
    i + |tag| <= |s| && s[i..i + |tag|] == tag
  }

  /** A match at `i` is the one the tag test and the lazy body find. */
  lemma CtaMatchFound(s: string, i: nat, t: string, j: nat)
    requires IsCtaMatch(s, i, t, j)
    ensures i < |s| && s[i] == '[' && TagAt(s, i + 1, t) && LazyEnd(s, i + 1 + |t|, ']') == Some(j)
  {
    LazyEndIff(s, i + 1 + |t|, ']', j);
  }

  /** The CTA pattern tried at `i`: the tag and the index of the closing bracket.
      `button` is tried before `link`; the two cannot both start at `i + 1`. */
  function CtaAt(s: string, i: nat): (r: Option<(string, nat)>)
    ensures r.Some? ==> IsCtaMatch(s, i, r.value.0, r.value.1)
    ensures r.None? ==> forall t, j :: !IsCtaMatch(s, i, t, j)
  {
    if i < |s| && s[i] == '[' && TagAt(s, i + 1, "button") && LazyEnd(s, i + 7, ']').Some? then
      Some(("button", LazyEnd(s, i + 7, ']').value))
    else if i < |s| && s[i] == '[' && TagAt(s, i + 1, "link") && LazyEnd(s, i + 5, ']').Some? then
      Some(("link", LazyEnd(s, i + 5, ']').value))
    else
      assert forall t, j :: !IsCtaMatch(s, i, t, j) by {
        forall t: string, j: nat | IsCtaMatch(s, i, t, j) ensures false {
          CtaMatchFound(s, i, t, j);
        }
      }
      None
  }

  /** A match of the CTA pattern: the index of `[`, the tag, the index of `]`. */
  datatype CtaMatch = CtaMatch(open: nat, tag: string, close: nat)

  /** `text.match(CTA_REGEX)` searching from `from`: the leftmost tag. */
  function FindCta(s: string, from: nat): (r: Option<CtaMatch>)
    ensures r.Some? ==> from <= r.value.open && IsCtaMatch(s, r.value.open, r.value.tag, r.value.close)
    decreases |s| - from
  {
    if from >= |s| then None
    else match CtaAt(s, from)
      case Some((t, j)) => Some(CtaMatch(from, t, j))
      case None => FindCta(s, from + 1)
  }

  /** The tag `FindCta` finds is the leftmost one, and when it finds none there is none. */
  lemma FindCtaLeftmost(s: string, from: nat)
    ensures var r := FindCta(s, from);
            (r.Some? ==> forall p, t, q :: from <= p < r.value.open ==> !IsCtaMatch(s, p, t, q))
            && (r.None? ==> forall p, t, q :: from <= p ==> !IsCtaMatch(s, p, t, q))
  {
    FoundCtaLeftmost(s, from);
    NoCtaFound(s, from);
  }

  lemma {:induction false} FoundCtaLeftmost(s: string, from: nat)
    ensures var r := FindCta(s, from);
            r.Some? ==> forall p, t, q :: from <= p < r.value.open ==> !IsCtaMatch(s, p, t, q)
    decreases |s| - from
  {
    if from < |s| && CtaAt(s, from).None? {
      FoundCtaLeftmost(s, from + 1);
    }
  }

  lemma {:induction false} NoCtaFound(s: string, from: nat)
    ensures FindCta(s, from).None? ==> forall p, t, q :: from <= p ==> !IsCtaMatch(s, p, t, q)
    decreases |s| - from
  {
    if from < |s| && CtaAt(s, from).None? {
      NoCtaFound(s, from + 1);
    }
  }

  // ---------------------------------------------------------------- ATTRIBUTE

  /** `/(\w+)="(.*?)"/` matches `s[p..q+1]` when tried at `p`: the key is `s[p..e]`
      and the value `s[e+2..q]`. */
  predicate IsAttrMatch(s: string, p: nat, e: nat, q: nat) {
    && p < e && e + 2 <= q < |s|
    && AllWord(s[p..e])
    && s[e] == '=' && s[e + 1] == '"'
    && s[q] == '"' && Dotted(s, e + 2, q, '"')
  }

  /** The tag-attribute pattern tried at `p`. Greedy `\w+` takes the whole run of
      word characters: a shorter run would leave a word character where `=` must be. */
  function AttrAt(s: string, p: nat): (r: Option<(nat, nat)>)
    ensures r.Some? ==> IsAttrMatch(s, p, r.value.0, r.value.1)
    ensures r.None? ==> forall e, q :: !IsAttrMatch(s, p, e, q)
  {
    if p > |s| then None
    else
      var e := WordEnd(s, p);
      if e > p && e + 1 < |s| && s[e] == '=' && s[e + 1] == '"' && LazyEnd(s, e + 2, '"').Some? then
        Some((e, LazyEnd(s, e + 2, '"').value))
      else
        assert forall e', q :: !IsAttrMatch(s, p, e', q) by {
          forall e': nat, q: nat | IsAttrMatch(s, p, e', q) ensures false {
            AttrMatchFound(s, p, e', q);
          }
        }
        None
  }

  /** A match at `p` is the one the greedy word run and the lazy value find. */
  lemma AttrMatchFound(s: string, p: nat, e: nat, q: nat)
    requires IsAttrMatch(s, p, e, q)
    ensures p <= |s| && e == WordEnd(s, p) && e > p && e + 1 < |s| && s[e] == '=' && s[e + 1] == '"'
    ensures LazyEnd(s, e + 2, '"') == Some(q)
  {
    WordEndOfWordRun(s, p, e);
    LazyEndIff(s, e + 2, '"', q);
  }

  /** A run of word characters that ends at a non-word character is the greedy run. */
  lemma WordEndOfWordRun(s: string, p: nat, e: nat)
    requires p <= e < |s| && AllWord(s[p..e]) && !IsWordChar(s[e])
    ensures WordEnd(s, p) == e
    decreases e - p
  {
    if p < e {
      assert IsWordChar(s[p..e][0]);
      assert s[p + 1..e] == s[p..e][1..];
      WordEndOfWordRun(s, p + 1, e);
    }
  }

  /** `ATTRIBUTE_REGEX.exec(s)` with `lastIndex == from`: the leftmost match at or after `from`. */
  function NextAttr(s: string, from: nat): (r: Option<(nat, nat, nat)>)
    ensures r.Some? ==> from <= r.value.0 && IsAttrMatch(s, r.value.0, r.value.1, r.value.2)
    decreases |s| - from
  {
    if from >= |s| then None
    else
      var a := AttrAt(s, from);
      if a.Some? then Some((from, a.value.0, a.value.1)) else NextAttr(s, from + 1)
  }

  /** The match `NextAttr` finds is the leftmost one, and when it finds none there is none. */
  lemma {:induction false} NextAttrLeftmost(s: string, from: nat)
    ensures var r := NextAttr(s, from);
            (r.Some? ==> forall p, e, q :: from <= p < r.value.0 ==> !IsAttrMatch(s, p, e, q))
            && (r.None? ==> forall p, e, q :: from <= p ==> !IsAttrMatch(s, p, e, q))
    decreases |s| - from
  {
    if from < |s| && AttrAt(s, from).None? {
      NextAttrLeftmost(s, from + 1);
    }
  }

  // ---------------------------------------------------------------- ATTRIBUTE_PAIR

  /** One match of the attribute-block pair pattern: the key, the raw value and the
      index just past the match. */
  datatype PairMatch = PairMatch(key: string, value: string, end: nat)

  /** `/\s*(\w+)\s*=\s*(".*?"|[^,]+)/` tried at `p`. Every greedy run is maximal
      because a shorter one leaves the wrong kind of character for what follows,
      except the white space after `=`: when neither a closed quoted value nor a
      comma-free run starts after it, the engine gives one white-space character
      back and `[^,]+` takes exactly that character. */
  function PairAt(s: string, p: nat): (r: Option<PairMatch>)
    requires p <= |s|
    ensures r.Some? ==> PairShape(s, p, r.value)
  {
    var a := WsEnd(s, p);
    var w := WordEnd(s, a);
    var b := WsEnd(s, w);
    if w == a || b == |s| || s[b] != '=' then None
    else
      var q := WsEnd(s, b + 1);
      if q < |s| && s[q] == '"' && LazyEnd(s, q + 1, '"').Some? then
        var c := LazyEnd(s, q + 1, '"').value;
        PairShapeOf(s, p, a, w, q, c + 1);
        Some(PairMatch(s[a..w], s[q..c + 1], c + 1))
      else if q < |s| && s[q] != ',' then
        var e := CommaEnd(s, q);
        PairShapeOf(s, p, a, w, q, e);
        Some(PairMatch(s[a..w], s[q..e], e))
      else if q > b + 1 then
        PairShapeOf(s, p, a, w, q - 1, q);
        Some(PairMatch(s[a..w], s[q - 1..q], q))
      else None
  }

  /** A pair found at `p`: it ends after `p`, its key is a run of word characters,
      and its value is the non-empty text that ends where the match ends. */
  predicate PairShape(s: string, p: nat, m: PairMatch) {
    && p < m.end <= |s| && m.key != [] && AllWord(m.key)
    && m.value != [] && |m.value| <= m.end && m.value == s[m.end - |m.value|..m.end]
  }

  lemma PairShapeOf(s: string, p: nat, a: nat, w: nat, i: nat, j: nat)
    requires p <= a < w <= i < j <= |s| && AllWord(s[a..w])
    ensures PairShape(s, p, PairMatch(s[a..w], s[i..j], j))
  {
  }

  /** `ATTRIBUTE_PAIR_REGEX.exec(s)` with `lastIndex == from`: the start and the
      match of the leftmost position at or after `from` where the pattern matches. */
  function NextPair(s: string, from: nat): (r: Option<(nat, PairMatch)>)
    requires from <= |s|
    ensures r.Some? ==> from <= r.value.0 <= |s| && PairAt(s, r.value.0) == Some(r.value.1)
    decreases |s| - from
  {
    match PairAt(s, from)
    case Some(m) => Some((from, m))
    case None => if from == |s| then None else NextPair(s, from + 1)
  }

  /** The match `NextPair` finds is the leftmost one: no position between `from`
      and it matches, and when it finds none, no position from `from` on matches. */
  lemma {:induction false} NextPairLeftmost(s: string, from: nat, p: nat)
    requires from <= p <= |s|
    requires NextPair(s, from).None? || p < NextPair(s, from).value.0
    ensures PairAt(s, p).None?
    decreases p - from
  {
    if p > from {
      assert PairAt(s, from).None?;
      assert NextPair(s, from) == NextPair(s, from + 1);
      NextPairLeftmost(s, from + 1, p);
    }
  }
}
