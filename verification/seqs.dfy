/** Order-keeping sub-lists, shared by the day query of the grid and the delete filter, and slices of concatenations. */
module Seqs {

  /** `a` can be obtained from `b` by dropping elements, so `a` keeps `b`'s relative order. */
  predicate IsSubsequence<T(==)>(a: seq<T>, b: seq<T>)
    decreases |b|
  {
    if a == [] then true
    else if b == [] then false
    else if a[0] == b[0] then IsSubsequence(a[1..], b[1..])
    else IsSubsequence(a, b[1..])
  }

  /** A subsequence of the tail of `b` is a subsequence of `b`. */
  lemma {:induction false} SubsequenceSkip<T>(a: seq<T>, b: seq<T>)
    requires b != [] && IsSubsequence(a, b[1..])
    ensures IsSubsequence(a, b)
    decreases |b|, 0
  {
    if a != [] && a[0] == b[0] {
      SubsequenceDropHead(a, b[1..]);
    }
  }

  /** A subsequence stays one after its first element is removed. */
  lemma {:induction false} SubsequenceDropHead<T>(a: seq<T>, b: seq<T>)
    requires a != [] && IsSubsequence(a, b)
    ensures IsSubsequence(a[1..], b)
    decreases |b|, 1
  {
    if a[0] == b[0] {
      if a[1..] != [] {
        SubsequenceSkip(a[1..], b);
      }
    } else {
      SubsequenceDropHead(a, b[1..]);
      if a[1..] != [] {
        SubsequenceSkip(a[1..], b);
      }
    }
  }

  /** A slice inside the left operand of a concatenation. */
  lemma SliceOfAppend<T>(a: seq<T>, b: seq<T>, lo: nat, hi: nat)
    requires lo <= hi <= |a|
    ensures (a + b)[lo..hi] == a[lo..hi]
  {
  }

  /** The right operand of a concatenation, sliced back out. */
  lemma SliceOfAppendRight<T>(a: seq<T>, b: seq<T>)
    ensures (a + b)[|a|..|a| + |b|] == b
  {
  }

  /** A prefix of a suffix of `s` is a slice of `s`, and the suffix's elements are those of `s` shifted by `k`. */
  lemma SliceOfSuffix<T>(s: seq<T>, a: seq<T>, k: nat, m: nat)
    requires k <= |s| && a == s[k..] && m <= |a|
    ensures a[..m] == s[k..k + m]
    ensures forall i :: k <= i < |s| ==> s[i] == a[i - k]
  {
  }

  /** Putting an element in front of a concatenation puts it in front of the first part. */
  lemma ConsAssociates<T>(x: T, a: seq<T>, b: seq<T>)
    ensures [x] + a + b == [x] + (a + b)
  {
  }

  /** Cutting `w + t` at a position inside `t` cuts `t` there. */
  lemma SlicesOfAppend<T>(w: seq<T>, t: seq<T>, n: nat)
    requires n <= |t|
    ensures (w + t)[..|w| + n] == w + t[..n]
    ensures n < |t| ==> (w + t)[|w| + n + 1..] == t[n + 1..]
  {
  }
}
