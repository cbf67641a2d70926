/**
 * Sequences of sequences laid end to end, and subsequences: one sequence is another
 * with some elements left out, the rest kept in order.
 */
module Seqs {
  /** The pieces laid end to end. */
  function Concat<T>(pieces: seq<seq<T>>): seq<T> {
    if pieces == [] then [] else pieces[0] + Concat(pieces[1..])
  }

  lemma {:induction false} ConcatAppend<T>(a: seq<seq<T>>, b: seq<seq<T>>)
    ensures Concat(a + b) == Concat(a) + Concat(b)
    decreases |a|
  {
    if a == [] {
      assert a + b == b;
    } else {
      assert (a + b)[1..] == a[1..] + b;
      ConcatAppend(a[1..], b);
    }
  }

  /** One more piece at the end adds its elements at the end. */
  lemma ConcatSnoc<T>(a: seq<seq<T>>, x: seq<T>)
    ensures Concat(a + [x]) == Concat(a) + x
  {
    ConcatAppend(a, [x]);
    assert [x][1..] == [];
  }

  /** `a` is `b` with some elements left out, the rest in their order. */
  predicate IsSubseq<T(==)>(a: seq<T>, b: seq<T>)
    decreases |b|
  {
    if b == [] then a == []
    else (a != [] && a[|a| - 1] == b[|b| - 1] && IsSubseq(a[..|a| - 1], b[..|b| - 1]))
         || IsSubseq(a, b[..|b| - 1])
  }

  lemma SubseqAppendBoth<T>(a: seq<T>, b: seq<T>, x: T)
    requires IsSubseq(a, b)
    ensures IsSubseq(a + [x], b + [x])
  {
    assert (a + [x])[..|a|] == a;
    assert (b + [x])[..|b|] == b;
  }

  lemma SubseqAppendRight<T>(a: seq<T>, b: seq<T>, x: T)
    requires IsSubseq(a, b)
    ensures IsSubseq(a, b + [x])
  {
    assert (b + [x])[..|b|] == b;
  }

  lemma {:induction false} EmptySubseq<T>(b: seq<T>)
    ensures IsSubseq([], b)
    decreases |b|
  {
    if b != [] {
      EmptySubseq(b[..|b| - 1]);
    }
  }

  /** Putting the same element in front of both keeps a subsequence. */
  lemma {:induction false} SubseqConsBoth<T>(a: seq<T>, b: seq<T>, x: T)
    requires IsSubseq(a, b)
    ensures IsSubseq([x] + a, [x] + b)
    decreases |b|
  {
    var a', b' := [x] + a, [x] + b;
    if b == [] {
      assert a == [];
      assert a'[..0] == [] && b'[..0] == [];
    } else if a != [] && a[|a| - 1] == b[|b| - 1] && IsSubseq(a[..|a| - 1], b[..|b| - 1]) {
      SubseqConsBoth(a[..|a| - 1], b[..|b| - 1], x);
      assert a'[..|a'| - 1] == [x] + a[..|a| - 1];
      assert b'[..|b'| - 1] == [x] + b[..|b| - 1];
    } else {
      SubseqConsBoth(a, b[..|b| - 1], x);
      assert b'[..|b'| - 1] == [x] + b[..|b| - 1];
    }
  }

  /** A subsequence of a suffix is a subsequence of the whole. */
  lemma {:induction false} SubseqOfSuffix<T>(a: seq<T>, b: seq<T>, k: nat)
    requires k <= |b| && IsSubseq(a, b[k..])
    ensures IsSubseq(a, b)
    decreases |b|
  {
    if k == |b| {
      assert b[k..] == [];
      EmptySubseq(b);
    } else {
      var s, init := b[k..], b[..|b| - 1];
      assert s[..|s| - 1] == init[k..];
      if a != [] && a[|a| - 1] == s[|s| - 1] && IsSubseq(a[..|a| - 1], s[..|s| - 1]) {
        SubseqOfSuffix(a[..|a| - 1], init, k);
      } else {
        SubseqOfSuffix(a, init, k);
      }
    }
  }
}
