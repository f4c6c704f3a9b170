/** Small shared vocabulary: an optional value and the subsequence relation. */
module Basics {

  datatype Option<+T> = None | Some(value: T)

  function Max(a: int, b: int): (r: int) { if a < b then b else a }

  function Min(a: int, b: int): (r: int) { if a < b then a else b }

  /** `a` can be obtained from `b` by deleting elements (order is kept). */
  predicate Subseq<T(==)>(a: seq<T>, b: seq<T>)
    decreases |b|
  {
    a == [] ||
    (b != [] &&
     (Subseq(a, b[..|b| - 1]) ||
      (a[|a| - 1] == b[|b| - 1] && Subseq(a[..|a| - 1], b[..|b| - 1]))))
  }

  lemma {:induction false} SubseqEmpty<T>(b: seq<T>)
    ensures Subseq([], b)
  {
  }

  /** Putting the same element in front of both sides keeps the relation. */
  lemma {:induction false} SubseqConsBoth<T>(x: T, a: seq<T>, b: seq<T>)
    requires Subseq(a, b)
    ensures Subseq([x] + a, [x] + b)
    decreases |b|
  {
    if a == [] {
      assert [x] + a == [x];
      SubseqPrefixOne(x, b);
    } else {
      assert b != [];
      var b' := b[..|b| - 1];
      assert ([x] + b)[..|[x] + b| - 1] == [x] + b';
      if Subseq(a, b') {
        SubseqConsBoth(x, a, b');
      } else {
        var a' := a[..|a| - 1];
        assert ([x] + a)[..|[x] + a| - 1] == [x] + a';
        SubseqConsBoth(x, a', b');
      }
    }
  }

  lemma {:induction false} SubseqPrefixOne<T>(x: T, b: seq<T>)
    ensures Subseq([x], [x] + b)
    decreases |b|
  {
    if b == [] {
      assert ([x] + b)[..0] == [];
    } else {
      assert ([x] + b)[..|b|] == [x] + b[..|b| - 1];
      SubseqPrefixOne(x, b[..|b| - 1]);
    }
  }

  /** An extra element in front of the larger side keeps the relation. */
  lemma {:induction false} SubseqDropFront<T>(x: T, a: seq<T>, b: seq<T>)
    requires Subseq(a, b)
    ensures Subseq(a, [x] + b)
    decreases |b|
  {
    if a != [] {
      assert b != [];
      var b' := b[..|b| - 1];
      assert ([x] + b)[..|[x] + b| - 1] == [x] + b';
      if Subseq(a, b') {
        SubseqDropFront(x, a, b');
      } else {
        SubseqDropFront(x, a[..|a| - 1], b');
      }
    }
  }
}
