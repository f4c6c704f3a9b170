/** The phrase matcher of `processTextNodes`: a window of tokens slides over
    each text node, longest windows first, and an accepted window becomes a
    span linked to the closest dictionary phrase, under a page-wide budget.

    The reference definitions are the functions `Candidate`, `Windows`,
    `MatchText` and `Batch`; the methods below run linker.js's loops and
    are proved to compute them. */
module Matching {
  import opened Basics
  import opened Chars
  import opened WordCount
  import opened Extraction

  /** One match of `/\b[\w'-.]+\b/g`: its text and its offset in the node. */
  datatype Token = Token(word: string, index: nat)

  /** An accepted match `{start, end, item}`. */
  datatype Span = Span(start: nat, end: nat, item: string)

  /** A `linkNodes` entry: a text node and its spans. */
  datatype Entry = Entry(node: TextNode, results: seq<Span>)

  /** The settings the linker reads: `words`, `url` and `options`. */
  datatype Settings = Settings(
    words: seq<string>,
    url: string,
    minNodeWordCount: int,
    maxDistance: int,
    linksPerPage: int)

  /** What the matcher takes from outside its file: the word tokeniser,
      `toLowerCase` and the `distance` function. */
  datatype Primitives = Primitives(
    tokens: string -> seq<Token>,
    lower: string -> string,
    distance: (string, string) -> int)

  datatype Context = Context(settings: Settings, prims: Primitives, range: WordRange)

  /** Window lengths are at least one, as `getWordCountRange` guarantees. */
  predicate ValidRange(r: WordRange)
  {
    r.min.Finite? ==> 1 <= r.min.n
  }

  /** `i >= minWordCount`, with `i >= Infinity` false. */
  predicate AtLeastMin(r: WordRange, i: int)
  {
    r.min.Finite? && i >= r.min.n
  }

  // ---------------------------------------------------------------------
  // The candidate expression of a window

  function Words(toks: seq<Token>): (r: seq<string>)
    decreases |toks|
  {
    if toks == [] then [] else Words(toks[..|toks| - 1]) + [toks[|toks| - 1].word]
  }

  /** The words of tokens `j .. j + i - 1` joined with single spaces. */
  function Expression(toks: seq<Token>, j: nat, i: nat): (r: string)
    requires j + i <= |toks|
  {
    Join(Words(toks[j..j + i]))
  }

  method WindowExpression(toks: seq<Token>, j: nat, i: nat) returns (expression: string)
    requires j + i <= |toks|
    ensures expression == Expression(toks, j, i)
  {
    var words: seq<string> := [];
    var k := 0;
    while k < i
      invariant 0 <= k <= i
      invariant words == Words(toks[j..j + k])
    {
      assert toks[j..j + k + 1][..k] == toks[j..j + k];
      words := words + [toks[j + k].word];
      k := k + 1;
    }
    expression := Join(words);
  }

  // ---------------------------------------------------------------------
  // The overlap guard

  /** `start` lies in `[r.start, r.end]` of some span accepted so far. */
  predicate Covered(results: seq<Span>, start: nat)
  {
    exists k :: 0 <= k < |results| && results[k].start <= start <= results[k].end
  }

  method CheckOverlap(results: seq<Span>, start: nat) returns (overlap: bool)
    ensures overlap == Covered(results, start)
  {
    overlap := false;
    var k := 0;
    while k < |results|
      invariant 0 <= k <= |results|
      invariant forall m :: 0 <= m < k ==> !(results[m].start <= start <= results[m].end)
    {
      if start >= results[k].start && start <= results[k].end {
        overlap := true;
        return;
      }
      k := k + 1;
    }
  }

  // ---------------------------------------------------------------------
  // The closest dictionary phrase

  /** `dist` is `None` while it is still `Infinity`. */
  datatype Best = Best(dist: Option<int>, item: string)

  /** `distance(expression.toLowerCase(), word.toLowerCase())`. */
  function Dist(p: Primitives, expression: string, word: string): (r: int)
  {
    p.distance(p.lower(expression), p.lower(word))
  }

  /** The running minimum over the phrases in order, replaced only on a
      strictly smaller distance. */
  function Closest(p: Primitives, words: seq<string>, expression: string): (r: Best)
    decreases |words|
  {
    if words == [] then Best(None, "")
    else
      var before := Closest(p, words[..|words| - 1], expression);
      var word := words[|words| - 1];
      var d := Dist(p, expression, word);
      if before.dist.None? || d < before.dist.value then Best(Some(d), word) else before
  }

  method ClosestWord(p: Primitives, words: seq<string>, expression: string)
    returns (dist: Option<int>, item: string)
    ensures Best(dist, item) == Closest(p, words, expression)
  {
    dist := None;
    item := "";
    var k := 0;
    while k < |words|
      invariant 0 <= k <= |words|
      invariant Best(dist, item) == Closest(p, words[..k], expression)
    {
      assert words[..k + 1][..k] == words[..k];
      var currentDist := p.distance(p.lower(expression), p.lower(words[k]));
      if dist.None? || currentDist < dist.value {
        dist := Some(currentDist);
        item := words[k];
      }
      k := k + 1;
    }
    assert words[..k] == words;
  }

  // ---------------------------------------------------------------------
  // Reference definitions of the matcher

  /** The verdict on the window of `i` tokens starting at token `j`, given
      the spans accepted so far in the node. */
  function Candidate(c: Context, text: string, toks: seq<Token>, i: nat, j: nat, results: seq<Span>): (r: Option<Span>)
    requires 1 <= i && j + i <= |toks|
  {
    var expression := Expression(toks, j, i);
    var start := toks[j].index;
    var end := start + |expression|;
    if Covered(results, start) then None
    else if !AllLinkChars(Substring(text, start, end)) then None
    else
      var best := Closest(c.prims, c.settings.words, expression);
      if best.dist.Some? && best.dist.value <= c.settings.maxDistance
      then Some(Span(start, end, best.item))
      else None
  }

  /** The spans of one node, the counter, and whether the budget stopped it. */
  datatype Outcome = Outcome(results: seq<Span>, count: int, exhausted: bool)

  /** The nested window loops from length `i` and start `j` on: lengths go
      down to the minimum, starts go left to right, and the budget is
      checked before every candidate. */
  function Windows(c: Context, text: string, toks: seq<Token>, i: int, j: nat, results: seq<Span>, count: int): (r: Outcome)
    requires ValidRange(c.range)
    decreases i, |toks| - j
  {
    if !AtLeastMin(c.range, i) then Outcome(results, count, false)
    else if j > |toks| - i then Windows(c, text, toks, i - 1, 0, results, count)
    else if count >= c.settings.linksPerPage then Outcome(results, count, true)
    else
      match Candidate(c, text, toks, i, j, results)
      case None => Windows(c, text, toks, i, j + 1, results, count)
      case Some(span) => Windows(c, text, toks, i, j + 1, results + [span], count + 1)
  }

  /** What one node yields: nothing for a node with too few words, otherwise
      the window loops' spans sorted by start. */
  function MatchText(c: Context, text: string, count: int): (r: Outcome)
    requires ValidRange(c.range)
  {
    var toks := c.prims.tokens(text);
    if |toks| < c.settings.minNodeWordCount then Outcome([], count, false)
    else
      var o := Windows(c, text, toks, c.range.max, 0, [], count);
      Outcome(SortByStart(o.results), o.count, o.exhausted)
  }

  /** The entries, the counter, and whether the batch was cut short. */
  datatype BatchOutcome = BatchOutcome(entries: seq<Entry>, count: int, halted: bool)

  /** `processTextNodes` on a list of nodes: a node with spans becomes an
      entry; the budget running out ends the whole batch after that node. */
  function Batch(c: Context, nodes: seq<TextNode>, count: int): (r: BatchOutcome)
    requires ValidRange(c.range)
    decreases |nodes|
  {
    if nodes == [] then BatchOutcome([], count, false)
    else
      var o := MatchText(c, nodes[0].value, count);
      var here := if |o.results| > 0 then [Entry(nodes[0], o.results)] else [];
      if o.exhausted then BatchOutcome(here, o.count, true)
      else
        var rest := Batch(c, nodes[1..], o.count);
        BatchOutcome(here + rest.entries, rest.count, rest.halted)
  }

  /** The total number of spans of a list of entries. */
  function SpanCount(entries: seq<Entry>): (r: nat)
    decreases |entries|
  {
    if entries == [] then 0 else SpanCount(entries[..|entries| - 1]) + |entries[|entries| - 1].results|
  }

  // ---------------------------------------------------------------------
  // `results.sort((a, b) => a.start - b.start)`

  predicate SortedByStart(rs: seq<Span>)
  {
    forall p, q :: 0 <= p < q < |rs| ==> rs[p].start <= rs[q].start
  }

  /** JavaScript's sort is stable; this insertion keeps equal starts in
      their original order as well. */
  function InsertByStart(sorted: seq<Span>, x: Span): (r: seq<Span>)
    requires SortedByStart(sorted)
    ensures SortedByStart(r)
    ensures multiset(r) == multiset(sorted) + multiset{x}
    decreases |sorted|
  {
    if sorted == [] then [x]
    else if sorted[|sorted| - 1].start <= x.start then sorted + [x]
    else
      var init := sorted[..|sorted| - 1];
      var last := sorted[|sorted| - 1];
      var r := InsertByStart(init, x);
      InsertBelowLast(sorted, x, r);
      r + [last]
  }

  /** The step of `InsertByStart` that puts the old last span back on top. */
  lemma InsertBelowLast(sorted: seq<Span>, x: Span, r: seq<Span>)
    requires SortedByStart(sorted) && sorted != []
    requires x.start < sorted[|sorted| - 1].start
    requires SortedByStart(r)
    requires multiset(r) == multiset(sorted[..|sorted| - 1]) + multiset{x}
    ensures SortedByStart(r + [sorted[|sorted| - 1]])
    ensures multiset(r + [sorted[|sorted| - 1]]) == multiset(sorted) + multiset{x}
  {
    var init := sorted[..|sorted| - 1];
    var last := sorted[|sorted| - 1];
    assert sorted == init + [last];
    forall k | 0 <= k < |r| ensures r[k].start <= last.start {
      assert r[k] in multiset(r);
      if r[k] != x {
        assert r[k] in multiset(init);
        var m :| 0 <= m < |init| && init[m] == r[k];
        assert sorted[m] == r[k];
      }
    }
  }

  function SortByStart(rs: seq<Span>): (r: seq<Span>)
    ensures SortedByStart(r)
    ensures multiset(r) == multiset(rs)
    decreases |rs|
  {
    if rs == [] then []
    else
      assert rs == rs[..|rs| - 1] + [rs[|rs| - 1]];
      InsertByStart(SortByStart(rs[..|rs| - 1]), rs[|rs| - 1])
  }

  // ---------------------------------------------------------------------
  // The loops

  /** The body of the `for (const node of nodes)` loop for one node: the word
      count check, the window loops with the budget check, and the sort. */
  method MatchNode(c: Context, text: string, count: int)
    returns (results: seq<Span>, newCount: int, exhausted: bool)
    requires ValidRange(c.range)
    ensures Outcome(results, newCount, exhausted) == MatchText(c, text, count)
  {
    var matches := c.prims.tokens(text);
    if |matches| < c.settings.minNodeWordCount {
      return [], count, false;
    }
    ghost var all := Windows(c, text, matches, c.range.max, 0, [], count);
    results := [];
    newCount := count;
    var i: int := c.range.max;
    while AtLeastMin(c.range, i)
      invariant all == Windows(c, text, matches, i, 0, results, newCount)
      decreases i
    {
      var j: nat := 0;
      while j <= |matches| - i
        invariant all == Windows(c, text, matches, i, j, results, newCount)
        decreases |matches| - j
      {
        if newCount >= c.settings.linksPerPage {
          results := SortByStart(results);
          return results, newCount, true;
        }
        var expression := WindowExpression(matches, j, i);
        var startIndex := matches[j].index;
        var endIndex := startIndex + |expression|;
        var overlap := CheckOverlap(results, startIndex);
        if !overlap && AllLinkChars(Substring(text, startIndex, endIndex)) {
          var dist, item := ClosestWord(c.prims, c.settings.words, expression);
          if dist.Some? && dist.value <= c.settings.maxDistance {
            results := results + [Span(startIndex, endIndex, item)];
            newCount := newCount + 1;
          }
        }
        j := j + 1;
      }
      i := i - 1;
    }
    results := SortByStart(results);
    exhausted := false;
  }
}
