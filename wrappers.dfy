/** Optional values and sequence notions shared by every module of the model. */
module Wrappers {

  /** An optional value: the model's stand-in for JavaScript's null/undefined and Python's None. */
  datatype Option<+T> = None | Some(value: T)

  /** The value carried by `o`, or `default` when there is none. */
  function GetOr<T>(o: Option<T>, default: T): T
  {
    if o.Some? then o.value else default
  }

  /** `a` can be obtained from `b` by deleting elements: the order of what is kept is the order in `b`. */
  predicate IsSubsequence<T(==)>(a: seq<T>, b: seq<T>)
    decreases |b|
  {
    |a| == 0 || (|b| > 0 && ((a[0] == b[0] && IsSubsequence(a[1..], b[1..])) || IsSubsequence(a, b[1..])))
  }

  /** Keeping the first element of both sides keeps a subsequence. */
  lemma SubsequenceKeep<T>(x: T, a: seq<T>, b: seq<T>)
    requires IsSubsequence(a, b)
    ensures IsSubsequence([x] + a, [x] + b)
  {
    assert ([x] + a)[1..] == a && ([x] + b)[1..] == b;
  }

  /** Dropping an element of the longer side keeps a subsequence. */
  lemma SubsequenceDrop<T>(x: T, a: seq<T>, b: seq<T>)
    requires IsSubsequence(a, b)
    ensures IsSubsequence(a, [x] + b)
  {
    assert ([x] + b)[1..] == b;
  }

  /** Regrouping a concatenation, stated apart so that no proof over a long expression has to find it. */
  lemma ConcatAssoc<T>(a: seq<T>, b: seq<T>, c: seq<T>)
    ensures a + (b + c) == (a + b) + c
  {
  }

  /** `r` holds every element of `s` that `keep` accepts, as often as `s` does, and nothing else. */
  ghost predicate KeepsCounts<T(!new)>(r: seq<T>, s: seq<T>, keep: T -> bool)
  {
    forall x :: multiset(r)[x] == if keep(x) then multiset(s)[x] else 0
  }

  /** One step of a filter: an accepted head is kept, a refused one is dropped. */
  lemma KeepsCountsCons<T(!new)>(x: T, r: seq<T>, s: seq<T>, keep: T -> bool)
    requires KeepsCounts(r, s, keep)
    ensures keep(x) ==> KeepsCounts([x] + r, [x] + s, keep)
    ensures !keep(x) ==> KeepsCounts(r, [x] + s, keep)
  {
    MultisetOfCons(x, r);
    MultisetOfCons(x, s);
  }

  lemma MultisetOfCons<T>(x: T, s: seq<T>)
    ensures multiset([x] + s) == multiset{x} + multiset(s)
  {
  }
}
