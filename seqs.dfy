/** Facts about slicing and concatenating sequences, stated once for any element
    type so that the string proofs can cite them. */
module Seqs {

  /** Cutting a sequence at `k`, and its suffix `t` at `m`, gives three parts. */
  lemma Concat3<T>(s: seq<T>, t: seq<T>, k: nat, m: nat)
    requires k <= |s| && t == s[k..] && m <= |t|
    ensures s == s[..k] + t[..m] + t[m..]
  {
    assert t == t[..m] + t[m..];
    assert s == s[..k] + t;
  }

  /** A suffix of the tail is a suffix of the whole; a prefix of the whole is the
      head followed by a prefix of the tail. */
  lemma TailSlices<T>(s: seq<T>, k: nat)
    requires 1 <= k <= |s|
    ensures s[1..][k - 1..] == s[k..]
    ensures s[..k] == [s[0]] + s[1..][..k - 1]
  {
  }

  /** A prefix of the front is a prefix of the whole; a suffix of the whole is a
      suffix of the front followed by the last element. */
  lemma InitSlices<T>(s: seq<T>, k: nat)
    requires k < |s|
    ensures s[..|s| - 1][..k] == s[..k]
    ensures s[k..] == s[..|s| - 1][k..] + [s[|s| - 1]]
  {
  }

  /** A slice of a slice is a slice of the whole. */
  lemma SliceOfSlice<T>(s: seq<T>, a: nat, b: nat, c: nat, d: nat)
    requires a <= b <= |s| && c <= d <= b - a
    ensures s[a..b][c..d] == s[a + c..a + d]
  {
    forall k | 0 <= k < d - c
      ensures s[a..b][c..d][k] == s[a + c..a + d][k]
    {
      assert s[a..b][c..d][k] == s[a..b][c + k] == s[a + c + k];
    }
  }

  /** Putting an element in front shifts the front part and the last element by
      one, and replacing the last element commutes with it. */
  lemma ConsFrontLast<T>(x: T, p: seq<T>, z: T)
    requires |p| >= 1
    ensures ([x] + p)[..|p|] == [x] + p[..|p| - 1]
    ensures ([x] + p)[|p|] == p[|p| - 1]
    ensures ([x] + p)[..|p|] + [z] == [x] + (p[..|p| - 1] + [z])
  {
  }
}
