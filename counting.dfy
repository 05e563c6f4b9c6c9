/**
 * Counting the entries of a list that satisfy a predicate, the way
 * `reduce((acc, k) => acc + (p(k) ? 1 : 0), 0)` and `filter(p).length` do,
 * and what that count means: the size of the set of positions that satisfy
 * the predicate.
 */
module Counting {
  /** The number of entries of `s` that satisfy `p`, accumulated from the front. */
  function CountWhere<T>(s: seq<T>, p: T -> bool): (n: nat)
    ensures n <= |s|
  {
    if s == [] then 0
    else CountWhere(s[..|s| - 1], p) + (if p(s[|s| - 1]) then 1 else 0)
  }

  /** The positions of `s` whose entry satisfies `p`. */
  function IndicesWhere<T>(s: seq<T>, p: T -> bool): set<int> {
    set i | 0 <= i < |s| && p(s[i])
  }

  /** The count is the number of positions that satisfy the predicate. */
  lemma {:induction false} CountIsCardinality<T>(s: seq<T>, p: T -> bool)
    ensures CountWhere(s, p) == |IndicesWhere(s, p)|
  {
    if s == [] {
      assert IndicesWhere(s, p) == {};
    } else {
      var n := |s| - 1;
      var front := s[..n];
      CountIsCardinality(front, p);
      var before := IndicesWhere(front, p);
      assert forall i :: 0 <= i < n ==> front[i] == s[i];
      if p(s[n]) {
        assert IndicesWhere(s, p) == before + {n};
        assert n !in before;
      } else {
        assert IndicesWhere(s, p) == before;
      }
    }
  }

  /** Every entry satisfies the predicate exactly when the count reaches the length. */
  lemma {:induction false} CountAll<T>(s: seq<T>, p: T -> bool)
    ensures CountWhere(s, p) == |s| <==> forall i :: 0 <= i < |s| ==> p(s[i])
  {
    if s != [] {
      var n := |s| - 1;
      var front := s[..n];
      CountAll(front, p);
      assert forall i :: 0 <= i < n ==> front[i] == s[i];
    }
  }

  /** No entry satisfies the predicate exactly when the count is zero. */
  lemma {:induction false} CountNone<T>(s: seq<T>, p: T -> bool)
    ensures CountWhere(s, p) == 0 <==> forall i :: 0 <= i < |s| ==> !p(s[i])
  {
    if s != [] {
      var n := |s| - 1;
      var front := s[..n];
      CountNone(front, p);
      assert forall i :: 0 <= i < n ==> front[i] == s[i];
    }
  }

  /** Two predicates that agree on every entry give the same count. */
  lemma {:induction false} CountCongruent<T>(s: seq<T>, p: T -> bool, q: T -> bool)
    requires forall i :: 0 <= i < |s| ==> p(s[i]) == q(s[i])
    ensures CountWhere(s, p) == CountWhere(s, q)
  {
    if s != [] {
      var n := |s| - 1;
      var front := s[..n];
      assert forall i :: 0 <= i < n ==> front[i] == s[i];
      CountCongruent(front, p, q);
    }
  }
}
