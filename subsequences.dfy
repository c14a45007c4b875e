/** Order-preserving subsequences. */
module Subsequences {

  /**
   * `a` is what remains of `b` after deleting some of its elements, the rest
   * kept in order (matched from the back).
   */
  ghost predicate IsSubsequence<T>(a: seq<T>, b: seq<T>)
    decreases |b|
  {
    if a == [] then true
    else if b == [] then false
    else if a[|a| - 1] == b[|b| - 1] then IsSubsequence(a[..|a| - 1], b[..|b| - 1])
    else IsSubsequence(a, b[..|b| - 1])
  }

  /** Appending to the longer sequence keeps a subsequence a subsequence. */
  lemma {:induction false} SubsequenceOfLonger<T>(a: seq<T>, b: seq<T>, x: T)
    requires IsSubsequence(a, b)
    ensures IsSubsequence(a, b + [x])
    decreases |b|, 1
  {
    assert (b + [x])[..|b|] == b;
    if a != [] && a[|a| - 1] == x {
      SubsequenceDropLast(a, b);
    }
  }

  /** Dropping the last element of a subsequence keeps it a subsequence. */
  lemma {:induction false} SubsequenceDropLast<T>(a: seq<T>, b: seq<T>)
    requires a != [] && IsSubsequence(a, b)
    ensures IsSubsequence(a[..|a| - 1], b)
    decreases |b|, 0
  {
    var b' := b[..|b| - 1];
    assert b' + [b[|b| - 1]] == b;
    if a[|a| - 1] == b[|b| - 1] {
      SubsequenceOfLonger(a[..|a| - 1], b', b[|b| - 1]);
    } else {
      SubsequenceDropLast(a, b');
      SubsequenceOfLonger(a[..|a| - 1], b', b[|b| - 1]);
    }
  }

  /** Putting an element in front of the longer sequence keeps a subsequence. */
  lemma {:induction false} SubsequencePrepend<T>(a: seq<T>, b: seq<T>, x: T)
    requires IsSubsequence(a, b)
    ensures IsSubsequence(a, [x] + b)
    decreases |b|
  {
    if a != [] && b != [] {
      var b' := b[..|b| - 1];
      assert ([x] + b)[..|[x] + b| - 1] == [x] + b';
      if a[|a| - 1] == b[|b| - 1] {
        SubsequencePrepend(a[..|a| - 1], b', x);
      } else {
        SubsequencePrepend(a, b', x);
      }
    }
  }

  /** Putting the same element in front of both keeps a subsequence. */
  lemma {:induction false} SubsequenceConsBoth<T>(a: seq<T>, b: seq<T>, x: T)
    requires IsSubsequence(a, b)
    ensures IsSubsequence([x] + a, [x] + b)
    decreases |b|
  {
    if b == [] {
      assert [x] + b == [x];
      if a != [] {
        assert false;
      }
      assert ([x])[..0] == [];
    } else {
      var b' := b[..|b| - 1];
      assert ([x] + b)[..|[x] + b| - 1] == [x] + b';
      if a == [] {
        if b[|b| - 1] != x {
          SubsequenceConsBoth(a, b', x);
        }
      } else {
        var a' := a[..|a| - 1];
        assert ([x] + a)[..|[x] + a| - 1] == [x] + a';
        if a[|a| - 1] == b[|b| - 1] {
          SubsequenceConsBoth(a', b', x);
        } else {
          SubsequenceConsBoth(a, b', x);
        }
      }
    }
  }

  /** The prefix of a sequence up to its length is the sequence. */
  lemma TakeAll<T>(s: seq<T>)
    ensures s[..|s|] == s
  {
  }
}
