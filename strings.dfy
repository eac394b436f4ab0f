/** The JavaScript string built-ins the table engine relies on: white space as
    `trim` and `\s` see it, `split` on one character, `join`, and the decimal
    subset of `parseInt` and `Number`. */
module Strings {
  import opened Wrappers
  import Seqs

  /** Line terminators: `.` in a regular expression does not match them. */
  predicate IsLineTerminator(c: char) {
    c == '\n' || c == '\r' || c == '\U{2028}' || c == '\U{2029}'
  }

  /** White space as `String.prototype.trim` and the class `\s` see it. */
  predicate IsWhitespace(c: char) {
    || IsLineTerminator(c)
    || c == '\t' || c == '\U{000B}' || c == '\U{000C}' || c == ' ' || c == '\U{00A0}'
    || c == '\U{1680}' || ('\U{2000}' <= c <= '\U{200A}')
    || c == '\U{202F}' || c == '\U{205F}' || c == '\U{3000}' || c == '\U{FEFF}'
  }

  predicate IsDigit(c: char) {
    '0' <= c <= '9'
  }

  /** The class `\w` of a regular expression without the `u` flag. */
  predicate IsWordChar(c: char) {
    'a' <= c <= 'z' || 'A' <= c <= 'Z' || IsDigit(c) || c == '_'
  }

  predicate AllWhitespace(s: string) {
    forall k :: 0 <= k < |s| ==> IsWhitespace(s[k])
  }

  predicate AllDigits(s: string) {
    forall k :: 0 <= k < |s| ==> IsDigit(s[k])
  }

  predicate IsTrimmed(s: string) {
    s == [] || (!IsWhitespace(s[0]) && !IsWhitespace(s[|s| - 1]))
  }

  predicate StartsWith(s: string, prefix: string) {
    |prefix| <= |s| && s[..|prefix|] == prefix
  }

  // ---------------------------------------------------------------- trim

  function TrimStart(s: string): (r: string)
    ensures |r| <= |s| && r == s[|s| - |r|..]
    ensures AllWhitespace(s[..|s| - |r|])
    ensures r == [] || !IsWhitespace(r[0])
  {
    if |s| > 0 && IsWhitespace(s[0]) then
      var r := TrimStart(s[1..]);
      Seqs.TailSlices(s, |s| - |r|);
      r
    else s
  }

  function TrimEnd(s: string): (r: string)
    ensures |r| <= |s| && r == s[..|r|]
    ensures AllWhitespace(s[|r|..])
    ensures r == [] || !IsWhitespace(r[|r| - 1])
  {
    if |s| > 0 && IsWhitespace(s[|s| - 1]) then
      var r := TrimEnd(s[..|s| - 1]);
      Seqs.InitSlices(s, |r|);
      r
    else s
  }

  /** `s.trim()`: the longest middle part of `s` that neither starts nor ends with white space. */
  function Trim(s: string): (r: string)
    ensures IsTrimmed(r) && |r| <= |s|
  {
    TrimEnd(TrimStart(s))
  }

  // ---------------------------------------------------------------- split and join

  function IndexOf(s: string, c: char): (i: nat)
    requires c in s
    ensures i < |s| && s[i] == c && c !in s[..i]
  {
    if s[0] == c then 0 else 1 + IndexOf(s[1..], c)
  }

  /** `s.split(sep)` for a one-character separator. */
  function Split(s: string, sep: char): (parts: seq<string>)
    ensures |parts| >= 1
    ensures forall k :: 0 <= k < |parts| ==> sep !in parts[k]
    decreases |s|
  {
    if sep in s then
      var i := IndexOf(s, sep);
      [s[..i]] + Split(s[i + 1..], sep)
    else
      [s]
  }

  /** `parts.join(sep)`. */
  function Join(parts: seq<string>, sep: string): string
  {
    if |parts| == 0 then ""
    else if |parts| == 1 then parts[0]
    else parts[0] + sep + Join(parts[1..], sep)
  }

  // ---------------------------------------------------------------- numbers

  function DigitsValue(s: string): nat
    requires AllDigits(s)
  {
    if s == [] then 0 else 10 * DigitsValue(s[..|s| - 1]) + (s[|s| - 1] as int - '0' as int)
  }

  /** Decimal digits of a natural number, without leading zeros. */
  function NatToString(n: nat): (s: string)
    ensures |s| >= 1 && AllDigits(s)
  {
    (if n < 10 then [] else NatToString(n / 10)) + [('0' as int + n % 10) as char]
  }

  /** The largest integer a JavaScript number holds exactly, 2^53 - 1. */
  const MaxSafeInteger: int := 9007199254740991

  /** An integer JavaScript represents exactly and prints with all its digits. */
  predicate SafeInteger(n: int) {
    -MaxSafeInteger <= n <= MaxSafeInteger
  }

  /** `${n}` for a safe integer `n`: an optional minus sign and the decimal digits.
      For larger magnitudes JavaScript numbers are no longer exact, and from 10^21
      on `${n}` prints exponent form; this function does not model either. */
  function IntToString(n: int): string {
    if n < 0 then "-" + NatToString(-n) else NatToString(n)
  }

  /** The end of the run of digits that starts at `k`. */
  function DigitRunEnd(s: string, k: nat): (e: nat)
    requires k <= |s|
    ensures k <= e <= |s| && AllDigits(s[k..e]) && (e == |s| || !IsDigit(s[e]))
    decreases |s| - k
  {
    if k < |s| && IsDigit(s[k]) then DigitRunEnd(s, k + 1) else k
  }

  /** `parseInt(s, 10)`: optional sign, then the longest run of digits; `None` is NaN. */
  function ParseInt(s: string): (r: Option<int>)
    ensures r.None? <==> (var t := TrimStart(s);
                          var u := if |t| > 0 && (t[0] == '-' || t[0] == '+') then t[1..] else t;
                          u == [] || !IsDigit(u[0]))
  {
    var t := TrimStart(s);
    var u := if |t| > 0 && (t[0] == '-' || t[0] == '+') then t[1..] else t;
    var e := DigitRunEnd(u, 0);
    if e == 0 then None
    else
      var v: int := DigitsValue(u[..e]);
      Some(if t[0] == '-' then -v else v)
  }

  /** `Number(s)` on its decimal-integer subset: blank is 0, `[+-]?digits` is its value,
      anything else is NaN (`None`). */
  function ToNumber(s: string): (r: Option<int>)
  {
    var t := Trim(s);
    if t == [] then Some(0)
    else
      var u := if t[0] == '-' || t[0] == '+' then t[1..] else t;
      if u != [] && AllDigits(u) then
        var v: int := DigitsValue(u);
        Some(if t[0] == '-' then -v else v)
      else None
  }
}
