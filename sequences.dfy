/** Order-preserving selection from a sequence, the shape of a Python list
    comprehension with an `if`. */
module Sequences {

  /** `a` is `b` with some elements left out and the rest in their order. */
  predicate IsSubsequence<T(==)>(a: seq<T>, b: seq<T>)
    decreases |b|
  {
    if a == [] then true
    else if b == [] then false
    else if a[|a| - 1] == b[|b| - 1] then IsSubsequence(a[..|a| - 1], b[..|b| - 1])
    else IsSubsequence(a, b[..|b| - 1])
  }

  /** Leaving out the last element of the longer sequence keeps the relation. */
  lemma {:induction false} SubsequenceDropLast<T>(a: seq<T>, b: seq<T>, x: T)
    requires IsSubsequence(a, b)
    ensures IsSubsequence(a, b + [x])
    decreases |b|, 1
  {
    var bx := b + [x];
    assert bx[..|bx| - 1] == b;
    if a != [] && a[|a| - 1] == x {
      // The last element of `a` matched inside `b`; it can just as well
      // match `x`, since whatever of `a` precedes it is in `b`.
      SubsequenceInitOf(a, b);
    }
  }

  /** If `a` is a subsequence of `b`, so is `a` without its last element. */
  lemma {:induction false} SubsequenceInitOf<T>(a: seq<T>, b: seq<T>)
    requires a != [] && IsSubsequence(a, b)
    ensures IsSubsequence(a[..|a| - 1], b)
    decreases |b|, 0
  {
    var a0 := a[..|a| - 1];
    var b0 := b[..|b| - 1];
    assert b == b0 + [b[|b| - 1]];
    if a[|a| - 1] == b[|b| - 1] {
      SubsequenceDropLast(a0, b0, b[|b| - 1]);
    } else {
      SubsequenceInitOf(a, b0);
      SubsequenceDropLast(a0, b0, b[|b| - 1]);
    }
  }
}
