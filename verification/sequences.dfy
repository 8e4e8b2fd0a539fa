/** Generic definitions and facts about sequences: subsequences and
    occurrences of one sequence inside another. */
module Sequences {

  /** `a` is obtained from `b` by deleting elements, keeping the order of the rest. */
  predicate IsSubsequence<T(==)>(a: seq<T>, b: seq<T>)
    decreases |b|
  {
    if |a| == 0 then true
    else if |b| == 0 then false
    else if a[0] == b[0] then IsSubsequence(a[1..], b[1..])
    else IsSubsequence(a, b[1..])
  }

  /** Dropping the head of the longer sequence keeps the relation. */
  lemma {:induction false} SubsequenceSkip<T>(a: seq<T>, x: T, b: seq<T>)
    requires IsSubsequence(a, b)
    ensures IsSubsequence(a, [x] + b)
    decreases |b|, 1
  {
    var xb := [x] + b;
    assert xb[1..] == b;
    if |a| > 0 && a[0] == x {
      SubsequenceWeaken(a, b);
    }
  }

  /** A common head can be added to both sides. */
  lemma SubsequenceCons<T>(x: T, a: seq<T>, b: seq<T>)
    requires IsSubsequence(a, b)
    ensures IsSubsequence([x] + a, [x] + b)
  {
    assert ([x] + a)[1..] == a;
    assert ([x] + b)[1..] == b;
  }

  /** The tail of a subsequence is a subsequence. */
  lemma {:induction false} SubsequenceWeaken<T>(a: seq<T>, b: seq<T>)
    requires |a| > 0 && IsSubsequence(a, b)
    ensures IsSubsequence(a[1..], b)
    decreases |b|, 0
  {
    if a[0] == b[0] {
      SubsequenceSkip(a[1..], b[0], b[1..]);
      assert [b[0]] + b[1..] == b;
    } else {
      SubsequenceWeaken(a, b[1..]);
      SubsequenceSkip(a[1..], b[0], b[1..]);
      assert [b[0]] + b[1..] == b;
    }
  }

  /** `p` occurs in `s` starting at index `k`. */
  predicate OccursAt<T(==)>(s: seq<T>, p: seq<T>, k: int) {
    0 <= k && k + |p| <= |s| && s[k..k + |p|] == p
  }

  /** `p` occurs somewhere in `s` (Python's `p in s`), checked position by position. */
  predicate Contains<T(==)>(s: seq<T>, p: seq<T>)
    decreases |s|
  {
    OccursAt(s, p, 0) || (|s| > 0 && Contains(s[1..], p))
  }

  /** `Contains` holds exactly when `p` occurs at some index of `s`. */
  lemma {:induction false} ContainsIff<T>(s: seq<T>, p: seq<T>)
    ensures Contains(s, p) <==> exists k :: 0 <= k <= |s| && OccursAt(s, p, k)
    decreases |s|
  {
    if |s| > 0 {
      ContainsIff(s[1..], p);
      if Contains(s[1..], p) {
        var k :| 0 <= k <= |s[1..]| && OccursAt(s[1..], p, k);
        OccursShift(s, p, k + 1);
      }
      if exists k :: 0 < k <= |s| && OccursAt(s, p, k) {
        var k :| 0 < k <= |s| && OccursAt(s, p, k);
        OccursShift(s, p, k);
      }
    }
  }

  /** An occurrence at a positive index is an occurrence one place earlier in the tail. */
  lemma OccursShift<T>(t: seq<T>, p: seq<T>, j: int)
    requires 0 < j <= |t|
    ensures OccursAt(t, p, j) <==> OccursAt(t[1..], p, j - 1)
  {
    if j + |p| <= |t| {
      assert t[j..j + |p|] == t[1..][j - 1..j - 1 + |p|];
    }
  }
}
