/** What the string built-ins promise: trimming, splitting and joining, and
    reading back the decimal text of an integer. */
module StringFacts {
  import opened Wrappers
  import opened Strings
  import Seqs

  /** Only a string made of white space trims to the empty string. */
  lemma TrimEmpty(s: string)
    ensures Trim(s) == [] <==> AllWhitespace(s)
  {
    if Trim(s) == [] {
      TrimEmptyOnly(s);
    }
    if AllWhitespace(s) {
      WhitespaceTrimsEmpty(s);
    }
  }

  lemma TrimEmptyOnly(s: string)
    requires Trim(s) == []
    ensures AllWhitespace(s)
  {
    var t := TrimStart(s);
    assert AllWhitespace(t[0..]);
    assert t[0..] == t;
    assert t == [];
    assert s[..|s| - |t|] == s;
  }

  lemma WhitespaceTrimsEmpty(s: string)
    requires AllWhitespace(s)
    ensures Trim(s) == []
  {
    var t := TrimStart(s);
    WhitespaceSuffix(s, |s| - |t|);
    assert t == [];
  }

  lemma WhitespaceSuffix(s: string, k: nat)
    requires AllWhitespace(s) && k <= |s|
    ensures AllWhitespace(s[k..])
  {
  }

  lemma {:induction false} TrimStartSkipsWhitespace(w: string, x: string)
    requires AllWhitespace(w)
    ensures TrimStart(w + x) == TrimStart(x)
    decreases |w|
  {
    if w != [] {
      assert (w + x)[1..] == w[1..] + x;
      TrimStartSkipsWhitespace(w[1..], x);
    } else {
      assert w + x == x;
    }
  }

  lemma {:induction false} TrimEndSkipsWhitespace(x: string, w: string)
    requires AllWhitespace(w)
    ensures TrimEnd(x + w) == TrimEnd(x)
    decreases |w|
  {
    if w != [] {
      assert (x + w)[..|x + w| - 1] == x + w[..|w| - 1];
      TrimEndSkipsWhitespace(x, w[..|w| - 1]);
    } else {
      assert x + w == x;
    }
  }

  /** Trimming white space, a trimmed middle and white space gives the middle back. */
  lemma TrimOfPadded(w1: string, m: string, w2: string)
    requires AllWhitespace(w1) && AllWhitespace(w2) && IsTrimmed(m)
    ensures Trim(w1 + m + w2) == m
  {
    assert w1 + m + w2 == w1 + (m + w2);
    TrimStartSkipsWhitespace(w1, m + w2);
    if m == [] {
      assert m + w2 == w2 + [];
      TrimStartSkipsWhitespace(w2, []);
    } else {
      assert TrimStart(m + w2) == m + w2;
      TrimEndSkipsWhitespace(m, w2);
    }
  }

  lemma TrimTrimmed(m: string)
    requires IsTrimmed(m)
    ensures Trim(m) == m
  {
    assert [] + m + [] == m;
    TrimOfPadded([], m, []);
  }

  /** Every string is its trim padded with white space on both sides. */
  lemma TrimSplitsString(s: string) returns (w1: string, w2: string)
    ensures AllWhitespace(w1) && AllWhitespace(w2)
    ensures s == w1 + Trim(s) + w2
  {
    var t := TrimStart(s);
    var r := TrimEnd(t);
    w1 := s[..|s| - |t|];
    w2 := t[|r|..];
    assert AllWhitespace(w1);
    assert AllWhitespace(w2);
    assert Trim(s) == r;
    Seqs.Concat3(s, t, |s| - |t|, |r|);
  }

  /** A trailing carriage return is trimmed away with the rest of the white space. */
  lemma TrimIgnoresTrailingCR(s: string)
    ensures Trim(s + "\r") == Trim(s)
  {
    var w1, w2 := TrimSplitsString(s);
    var m := Trim(s);
    var w3 := w2 + "\r";
    assert AllWhitespace(w3) by {
      forall k | 0 <= k < |w3| ensures IsWhitespace(w3[k]) {
        if k < |w2| {
          assert w3[k] == w2[k];
        } else {
          assert w3[k] == '\r';
        }
      }
    }
    assert s + "\r" == w1 + m + w3;
    TrimOfPadded(w1, m, w3);
  }

  lemma {:induction false} IndexOfAfterPrefix(a: string, b: string, sep: char)
    requires sep !in a
    ensures sep in a + [sep] + b && IndexOf(a + [sep] + b, sep) == |a|
  {
    var s := a + [sep] + b;
    assert s[|a|] == sep;
    if a != [] {
      assert s[1..] == a[1..] + [sep] + b;
      IndexOfAfterPrefix(a[1..], b, sep);
    }
  }

  lemma SplitAfterFirst(a: string, b: string, sep: char)
    requires sep !in a
    ensures Split(a + [sep] + b, sep) == [a] + Split(b, sep)
  {
    var s := a + [sep] + b;
    IndexOfAfterPrefix(a, b, sep);
    assert s[..|a|] == a;
    assert s[|a| + 1..] == b;
  }

  /** Splitting a join gives the parts back when no part holds the separator. */
  lemma {:induction false} SplitOfJoin(parts: seq<string>, sep: char)
    requires |parts| >= 1
    requires forall k :: 0 <= k < |parts| ==> sep !in parts[k]
    ensures Split(Join(parts, [sep]), sep) == parts
  {
    if |parts| > 1 {
      SplitOfJoin(parts[1..], sep);
      SplitAfterFirst(parts[0], Join(parts[1..], [sep]), sep);
      assert Join(parts, [sep]) == parts[0] + [sep] + Join(parts[1..], [sep]);
      assert parts == [parts[0]] + parts[1..];
    }
  }

  /** Joining the parts of a split gives the string back. */
  lemma {:induction false} JoinOfSplit(s: string, sep: char)
    ensures Join(Split(s, sep), [sep]) == s
    decreases |s|
  {
    if sep in s {
      var i := IndexOf(s, sep);
      JoinOfSplit(s[i + 1..], sep);
      var rest := Split(s[i + 1..], sep);
      assert Split(s, sep) == [s[..i]] + rest;
      assert ([s[..i]] + rest)[1..] == rest;
      assert s == s[..i] + [sep] + s[i + 1..];
    }
  }

  /** A split yields one part more than there are separators. */
  lemma {:induction false} SplitCount(s: string, sep: char)
    ensures |Split(s, sep)| == multiset(s)[sep] + 1
    decreases |s|
  {
    if sep in s {
      var i := IndexOf(s, sep);
      SplitCount(s[i + 1..], sep);
      assert s == s[..i] + [sep] + s[i + 1..];
      assert multiset(s[..i])[sep] == 0;
    } else {
      assert multiset(s)[sep] == 0;
    }
  }

  /** A prefix without separator sticks to the first part. */
  lemma SplitPrepend(w: string, s: string, sep: char)
    requires sep !in w
    ensures Split(w + s, sep) == [w + Split(s, sep)[0]] + Split(s, sep)[1..]
  {
    if sep in s {
      var i := IndexOf(s, sep);
      assert s == s[..i] + [sep] + s[i + 1..];
      assert w + s == (w + s[..i]) + [sep] + s[i + 1..];
      SplitAfterFirst(w + s[..i], s[i + 1..], sep);
      SplitAfterFirst(s[..i], s[i + 1..], sep);
    } else {
      assert sep !in w + s;
    }
  }

  /** A suffix without separator sticks to the last part. */
  lemma {:induction false} SplitAppend(s: string, w: string, sep: char)
    requires sep !in w
    ensures Split(s + w, sep) == Split(s, sep)[..|Split(s, sep)| - 1] + [Split(s, sep)[|Split(s, sep)| - 1] + w]
    decreases |s|
  {
    if sep in s {
      var i := IndexOf(s, sep);
      var a, b := s[..i], s[i + 1..];
      var p := Split(b, sep);
      assert Split(s, sep) == [a] + p;
      SplitAppendFirst(s, w, sep);
      SplitAppend(b, w, sep);
      Seqs.ConsFrontLast(a, p, p[|p| - 1] + w);
    } else {
      assert sep !in s + w;
      assert Split(s + w, sep) == [s + w];
      assert Split(s, sep) == [s];
    }
  }

  /** The first separator of `s` is the first of `s + w`. */
  lemma SplitAppendFirst(s: string, w: string, sep: char)
    requires sep in s
    ensures var i := IndexOf(s, sep);
            Split(s + w, sep) == [s[..i]] + Split(s[i + 1..] + w, sep)
  {
    var i := IndexOf(s, sep);
    var a, b := s[..i], s[i + 1..];
    assert s + w == a + [sep] + (b + w);
    SplitAfterFirst(a, b + w, sep);
  }

  lemma {:induction false} NatToStringValue(n: nat)
    ensures DigitsValue(NatToString(n)) == n
  {
    var s := NatToString(n);
    var p := if n < 10 then [] else NatToString(n / 10);
    var d := ('0' as int + n % 10) as char;
    assert s == p + [d];
    assert s[..|s| - 1] == p && s[|s| - 1] == d;
    assert DigitsValue(s) == 10 * DigitsValue(p) + n % 10;
    if n >= 10 {
      NatToStringValue(n / 10);
    }
  }

  /** The text of an integer neither starts nor ends with white space, and after an
      optional minus sign it is all digits. */
  lemma IntToStringShape(n: int)
    ensures var s := IntToString(n);
            |s| >= 1 && !IsWhitespace(s[0]) && IsDigit(s[|s| - 1]) && !IsWhitespace(s[|s| - 1])
    ensures var s := IntToString(n);
            var u := if s[0] == '-' then s[1..] else s;
            s[0] != '+' && u == NatToString(if n < 0 then -n else n) && (s[0] == '-' <==> n < 0)
  {
    var d := NatToString(if n < 0 then -n else n);
    var s := IntToString(n);
    assert IsDigit(d[0]) && IsDigit(d[|d| - 1]);
    if n < 0 {
      assert s == "-" + d;
      assert s[1..] == d;
    }
  }

  lemma ParseIntOfIntToString(n: int)
    ensures ParseInt(IntToString(n)) == Some(n)
  {
    var s := IntToString(n);
    IntToStringShape(n);
    var m: nat := if n < 0 then -n else n;
    NatToStringValue(m);
    assert TrimStart(s) == s;
    var u := if s[0] == '-' || s[0] == '+' then s[1..] else s;
    assert u == NatToString(m);
    DigitRunEndOfDigits(u, 0);
    assert u[..|u|] == u;
  }

  lemma {:induction false} DigitRunEndOfDigits(s: string, k: nat)
    requires k <= |s| && AllDigits(s)
    ensures DigitRunEnd(s, k) == |s|
    decreases |s| - k
  {
    if k < |s| {
      DigitRunEndOfDigits(s, k + 1);
    }
  }

  lemma ToNumberOfIntToString(n: int)
    ensures ToNumber(IntToString(n)) == Some(n)
  {
    var s := IntToString(n);
    IntToStringShape(n);
    var m: nat := if n < 0 then -n else n;
    NatToStringValue(m);
    assert IsTrimmed(s);
    TrimTrimmed(s);
    var u := if s[0] == '-' || s[0] == '+' then s[1..] else s;
    assert u == NatToString(m);
  }

  lemma ParseIntOfNaN()
    ensures ParseInt("NaN") == None
  {
    var s := "NaN";
    assert s[0] == 'N';
    assert !IsWhitespace(s[0]);
    assert TrimStart(s) == s;
    assert DigitRunEnd(s, 0) == 0;
  }
}
