/** Order-preserving sub-lists. */
module Seqs {

  /** `a` is obtained from `b` by deleting elements, keeping the order of the rest. */
  predicate IsSubsequence<T(==)>(a: seq<T>, b: seq<T>)
    decreases |b|
  {
    if |a| == 0 then true
    else if |b| == 0 then false
    else if a[0] == b[0] then IsSubsequence(a[1..], b[1..])
    else IsSubsequence(a, b[1..])
  }

  /** A sub-list of the tail of `b` is a sub-list of `b`. */
  lemma {:induction false} SubsequenceOfTail<T>(a: seq<T>, b: seq<T>)
    requires |b| > 0 && IsSubsequence(a, b[1..])
    ensures IsSubsequence(a, b)
    decreases |b|, |a|
  {
    if |a| > 0 && a[0] == b[0] {
      DropHeadSubsequence(a, b[1..]);
    }
  }

  /** Dropping the first element of a sub-list leaves a sub-list. */
  lemma {:induction false} DropHeadSubsequence<T>(a: seq<T>, b: seq<T>)
    requires |a| > 0 && IsSubsequence(a, b)
    ensures IsSubsequence(a[1..], b)
    decreases |b|, |a|
  {
    if a[0] == b[0] {
      if |a| > 1 {
        SubsequenceOfTail(a[1..], b);
      }
    } else {
      DropHeadSubsequence(a, b[1..]);
      if |a| > 1 {
        SubsequenceOfTail(a[1..], b);
      }
    }
  }

  /** Keeping or dropping the head of `b` in front of a sub-list of its tail gives a sub-list of `b`. */
  lemma ConsSubsequence<T>(a: seq<T>, b: seq<T>, keep: bool)
    requires |b| > 0 && IsSubsequence(a, b[1..])
    ensures IsSubsequence((if keep then [b[0]] else []) + a, b)
  {
    if keep {
      assert ([b[0]] + a)[1..] == a;
    } else {
      assert [] + a == a;
      SubsequenceOfTail(a, b);
    }
  }
}
