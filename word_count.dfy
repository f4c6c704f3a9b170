/** The dictionary's word-count range: the smallest and largest number of
    whitespace-separated tokens over the configured phrases. */
module WordCount {
  import opened Chars

  /** `Infinity` is linker.js's initial `min`, kept when no phrase has a token. */
  datatype Bound = Finite(n: nat) | Infinity

  datatype WordRange = WordRange(min: Bound, max: nat)

  /** What `{min, max}` means for a list of phrases: phrases without tokens
      are ignored; with none left, `min` is infinite and `max` is 0; otherwise
      both are attained token counts and bound all the others. */
  ghost predicate IsWordCountRange(words: seq<string>, r: WordRange)
  {
    (r.min.Infinity? <==> forall k :: 0 <= k < |words| ==> RunCount(words[k]) == 0) &&
    (r.min.Infinity? ==> r.max == 0) &&
    (r.min.Finite? ==>
       1 <= r.min.n <= r.max &&
       (exists k :: 0 <= k < |words| && RunCount(words[k]) == r.min.n) &&
       (exists k :: 0 <= k < |words| && RunCount(words[k]) == r.max)) &&
    (forall k :: 0 <= k < |words| && RunCount(words[k]) > 0 ==>
       r.min.Finite? && r.min.n <= RunCount(words[k]) <= r.max)
  }

  method GetWordCountRange(words: seq<string>) returns (r: WordRange)
    ensures IsWordCountRange(words, r)
  {
    var max: nat := 0;
    var min := Infinity;
    var k := 0;
    while k < |words|
      invariant 0 <= k <= |words|
      invariant IsWordCountRange(words[..k], WordRange(min, max))
    {
      var length := RunCount(words[k]);
      if length > 0 {
        if length > max {
          max := length;
        }
        if min.Infinity? || length < min.n {
          min := Finite(length);
        }
      }
      assert forall m :: 0 <= m < k ==> words[..k + 1][m] == words[..k][m];
      assert words[..k + 1][k] == words[k];
      k := k + 1;
    }
    assert words[..k] == words;
    r := WordRange(min, max);
  }
}
