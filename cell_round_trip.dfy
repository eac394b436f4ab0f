/** Reading back the text the serialiser writes for one cell: a cell whose texts
    avoid the characters the grammar reserves reads back with the same type, the
    same shown fields and the same spans. */
module CellRoundTrip {
  import opened Wrappers
  import opened Strings
  import opened StringFacts
  import opened Types
  import opened Regex
  import opened ParseAttributes
  import opened ParseCell
  import opened Stringify

  // ---------------------------------------------------------------- tag attributes

  lemma TagObjectStep(s: string, from: nat, obj: map<string, string>, p: nat, e: nat, q: nat)
    requires NextAttr(s, from) == Some((p, e, q))
    ensures TagObjectFrom(s, from, obj) == TagObjectFrom(s, q + 1, AddAttr(s, p, e, q, obj))
  {
  }

  lemma TagObjectDone(s: string, from: nat, obj: map<string, string>)
    requires NextAttr(s, from).None?
    ensures TagObjectFrom(s, from, obj) == obj
  {
  }

  lemma TagObjectSkip(s: string, from: nat, obj: map<string, string>)
    requires NextAttr(s, from) == NextAttr(s, from + 1)
    ensures TagObjectFrom(s, from, obj) == TagObjectFrom(s, from + 1, obj)
  {
  }

  /** A value that a quoted tag attribute carries unchanged: `.*?"` stops at the
      first quote and does not cross a line terminator. */
  predicate QuotedValue(v: string) {
    forall m :: 0 <= m < |v| ==> v[m] != '"' && !IsLineTerminator(v[m])
  }

  /** A tag key the `\w+` group reads whole. */
  predicate TagKey(k: string) {
    k != [] && AllWord(k)
  }

  /** An attribute written at `from` is the next match, and assigns its value. */
  lemma QuotedAt(s: string, from: nat, k: string, v: string, obj: map<string, string>)
    requires TagKey(k) && QuotedValue(v)
    requires from + |Quoted(k, v)| <= |s| && s[from..from + |Quoted(k, v)|] == Quoted(k, v)
    ensures NextAttr(s, from) == Some((from, from + |k|, from + |k| + 2 + |v|))
    ensures AddAttr(s, from, from + |k|, from + |k| + 2 + |v|, obj) == obj[k := v]
  {
    QuotedAttrAt(s, from, k, v);
    QuotedValueAt(s, from, k, v);
    assert s[from..from + |k|] == Quoted(k, v)[..|k|] == k;
  }

  /** The tag-attribute pattern matches an attribute written at `from` exactly. */
  lemma QuotedAttrAt(s: string, from: nat, k: string, v: string)
    requires TagKey(k) && QuotedValue(v)
    requires from + |Quoted(k, v)| <= |s| && s[from..from + |Quoted(k, v)|] == Quoted(k, v)
    ensures AttrAt(s, from) == Some((from + |k|, from + |k| + 2 + |v|))
  {
    var w := Quoted(k, v);
    var e := from + |k|;
    var q := e + 2 + |v|;
    assert s[from..e] == w[..|k|] == k;
    assert s[e] == w[|k|] == '=';
    assert s[e + 1] == w[|k| + 1] == '"';
    assert s[q] == w[|w| - 1] == '"';
    WordEndOfWordRun(s, from, e);
    QuotedValueAt(s, from, k, v);
    LazyEndIff(s, e + 2, '"', q);
  }

  /** The value of an attribute written at `from` sits between its quotes, and
      the lazy `.*?"` runs over it. */
  lemma QuotedValueAt(s: string, from: nat, k: string, v: string)
    requires QuotedValue(v)
    requires from + |Quoted(k, v)| <= |s| && s[from..from + |Quoted(k, v)|] == Quoted(k, v)
    ensures Dotted(s, from + |k| + 2, from + |k| + 2 + |v|, '"')
    ensures s[from + |k| + 2..from + |k| + 2 + |v|] == v
  {
    var w := Quoted(k, v);
    var a := from + |k| + 2;
    forall m | 0 <= m < |v| ensures s[a + m] == v[m] {
      assert s[a + m] == w[|k| + 2 + m];
    }
    assert s[a..a + |v|] == v;
  }

  /** A space between two attributes is skipped. */
  lemma SpaceSkipped(s: string, i: nat)
    requires i < |s| && s[i] == ' '
    ensures NextAttr(s, i) == NextAttr(s, i + 1)
  {
    assert WordEnd(s, i) == i;
  }

  /** The object the serialised fields build: each listed field with a value, in order. */
  function AddProps(c: Cell, keys: seq<string>, obj: map<string, string>): map<string, string>
    decreases |keys|
  {
    if keys == [] then obj
    else AddProps(c, keys[1..], AddField(c, keys[0], obj))
  }

  /** The object after one field: its value assigned when it is not empty. */
  function AddField(c: Cell, k: string, obj: map<string, string>): map<string, string> {
    if Prop(c, k) != "" then obj[k := Prop(c, k)] else obj
  }

  /** The last attribute of a tag is assigned and the loop ends. */
  lemma LastPair(s: string, from: nat, k: string, v: string, obj: map<string, string>)
    requires TagKey(k) && QuotedValue(v)
    requires from <= |s| && s[from..] == Quoted(k, v)
    ensures TagObjectFrom(s, from, obj) == obj[k := v]
  {
    var q := from + |k| + 2 + |v|;
    assert s[from..from + |Quoted(k, v)|] == Quoted(k, v);
    QuotedAt(s, from, k, v, obj);
    TagObjectStep(s, from, obj, from, from + |k|, q);
    TagObjectDone(s, q + 1, obj[k := v]);
  }

  /** An attribute match is assigned and reading goes on just past it. */
  lemma StepAttr(s: string, from: nat, obj: map<string, string>, p: nat, e: nat, q: nat, o: map<string, string>)
    requires NextAttr(s, from) == Some((p, e, q))
    requires o == AddAttr(s, p, e, q, obj)
    ensures TagObjectFrom(s, from, obj) == TagObjectFrom(s, q + 1, o)
  {
    TagObjectStep(s, from, obj, p, e, q);
  }

  /** A space is stepped over. */
  lemma SkipSpace(s: string, i: nat, o: map<string, string>, next: nat)
    requires i < |s| && s[i] == ' ' && next == i + 1
    ensures TagObjectFrom(s, i, o) == TagObjectFrom(s, next, o)
  {
    SpaceSkipped(s, i);
    TagObjectSkip(s, i, o);
  }

  /** The attribute written at `from`, then a space, then `rest`: reading assigns
      the attribute and carries on at `next`, where `rest` starts. */
  lemma PairThenMore(s: string, from: nat, k: string, v: string, rest: string, obj: map<string, string>, next: nat)
    requires TagKey(k) && QuotedValue(v)
    requires from <= |s| && s[from..] == Quoted(k, v) + " " + rest
    requires next == from + |Quoted(k, v)| + 1
    ensures TagObjectFrom(s, from, obj) == TagObjectFrom(s, next, obj[k := v])
  {
    var q := from + |k| + 2 + |v|;
    PairMatch(s, from, k, v, rest, obj, q);
    StepPairSpace(s, from, from + |k|, q, obj, obj[k := v], next);
  }

  /** The attribute written at `from` and followed by a space is the next match,
      and assigns its value. */
  lemma PairMatch(s: string, from: nat, k: string, v: string, rest: string, obj: map<string, string>, q: nat)
    requires TagKey(k) && QuotedValue(v)
    requires from <= |s| && s[from..] == Quoted(k, v) + " " + rest
    requires q == from + |k| + 2 + |v|
    ensures NextAttr(s, from) == Some((from, from + |k|, q))
    ensures AddAttr(s, from, from + |k|, q, obj) == obj[k := v]
    ensures q + 1 < |s| && s[q + 1] == ' '
    ensures from + |Quoted(k, v)| + 1 == q + 2
  {
    PairLayout(s, from, k, v, rest, q);
    QuotedAt(s, from, k, v, obj);
  }

  /** An attribute match followed by a space: assigned, and reading goes on after the space. */
  lemma StepPairSpace(s: string, from: nat, e: nat, q: nat, obj: map<string, string>, o: map<string, string>, next: nat)
    requires NextAttr(s, from) == Some((from, e, q))
    requires o == AddAttr(s, from, e, q, obj)
    requires q + 1 < |s| && s[q + 1] == ' ' && next == q + 2
    ensures TagObjectFrom(s, from, obj) == TagObjectFrom(s, next, o)
  {
    StepAttr(s, from, obj, from, e, q, o);
    SkipSpace(s, q + 1, o, next);
  }

  /** Where the attribute, its closing quote `q` and the space after it sit in the text. */
  lemma PairLayout(s: string, from: nat, k: string, v: string, rest: string, q: nat)
    requires from <= |s| && s[from..] == Quoted(k, v) + " " + rest
    requires q == from + |k| + 2 + |v|
    ensures |Quoted(k, v)| == q + 1 - from && q + 1 < |s|
    ensures s[from..from + |Quoted(k, v)|] == Quoted(k, v)
    ensures s[q + 1] == ' '
  {
    var w := Quoted(k, v);
    assert |w| == |k| + 3 + |v|;
    assert s[from..from + |w|] == w;
    assert s[q + 1] == s[from..][|w|];
  }

  /** What follows the attribute and its space is `rest`. */
  lemma RestAfterPair(s: string, from: nat, k: string, v: string, rest: string, next: nat)
    requires from <= |s| && s[from..] == Quoted(k, v) + " " + rest
    requires next == from + |Quoted(k, v)| + 1
    ensures next <= |s| && s[next..] == rest
  {
    assert s[next..] == s[from..][|Quoted(k, v)| + 1..];
  }

  /** The first listed field of a tag: when written, it is read and assigned, and
      reading goes on where the attributes of the other fields start. */
  lemma FieldRead(s: string, from: nat, c: Cell, keys: seq<string>, obj: map<string, string>) returns (next: nat)
    requires keys != [] && TagKey(keys[0]) && QuotedValue(Prop(c, keys[0]))
    requires from <= |s| && s[from..] == Join(TagPairs(c, keys), " ")
    ensures from <= next <= |s|
    ensures s[next..] == Join(TagPairs(c, keys[1..]), " ")
    ensures TagObjectFrom(s, from, obj) == TagObjectFrom(s, next, AddField(c, keys[0], obj))
  {
    var k := keys[0];
    var v := Prop(c, k);
    var r := TagPairs(c, keys[1..]);
    if v == "" {
      assert TagPairs(c, keys) == r;
      next := from;
    } else {
      var w := Quoted(k, v);
      assert TagPairs(c, keys) == [w] + r;
      if r == [] {
        assert s[from..] == w;
        LastPair(s, from, k, v, obj);
        TagObjectDone(s, |s|, obj[k := v]);
        next := |s|;
      } else {
        assert s[from..] == w + " " + Join(r, " ");
        next := from + |w| + 1;
        PairThenMore(s, from, k, v, Join(r, " "), obj, next);
        RestAfterPair(s, from, k, v, Join(r, " "), next);
      }
    }
  }

  /** Reading the written attributes of a tag, wherever they start, builds the
      object of its fields. */
  lemma {:induction false} TagObjectOfPairs(s: string, from: nat, c: Cell, keys: seq<string>, obj: map<string, string>)
    requires forall i :: 0 <= i < |keys| ==> TagKey(keys[i]) && QuotedValue(Prop(c, keys[i]))
    requires from <= |s| && s[from..] == Join(TagPairs(c, keys), " ")
    ensures TagObjectFrom(s, from, obj) == AddProps(c, keys, obj)
    decreases |keys|
  {
    if keys == [] {
      assert from == |s|;
      TagObjectDone(s, from, obj);
    } else {
      var next := FieldRead(s, from, c, keys, obj);
      TagObjectOfPairs(s, next, c, keys[1..], AddField(c, keys[0], obj));
    }
  }

  /** A field of the built object: its value when listed and not empty, otherwise
      what the object held before. */
  lemma {:induction false} AddPropsGet(c: Cell, keys: seq<string>, obj: map<string, string>, key: string)
    ensures Get(AddProps(c, keys, obj), key) == if key in keys && Prop(c, key) != "" then Prop(c, key) else Get(obj, key)
    ensures key in AddProps(c, keys, obj) ==> key in obj || key in keys
    decreases |keys|
  {
    if keys != [] {
      AddPropsGet(c, keys[1..], AddField(c, keys[0], obj), key);
      assert key in keys <==> key == keys[0] || key in keys[1..];
    }
  }
}
