/** What the matcher's reference definitions guarantee: the budget, the
    start-only overlap guard, the choice of dictionary phrase, the shape of
    every accepted span, sorted results and the early end of a batch. */
module MatchingFacts {
  import opened Basics
  import opened Chars
  import opened WordCount
  import opened Extraction
  import opened Matching

  // ---------------------------------------------------------------------
  // Vocabulary

  /** What the word tokeniser yields for a text: non-empty matches of
      `[\w'-.]` characters that are the text at their offset, in increasing
      order, with at least one character between two matches. */
  ghost predicate WellTokenized(text: string, toks: seq<Token>)
  {
    (forall k :: 0 <= k < |toks| ==>
       0 < |toks[k].word| && toks[k].index + |toks[k].word| <= |text| &&
       text[toks[k].index..toks[k].index + |toks[k].word|] == toks[k].word &&
       (forall m :: 0 <= m < |toks[k].word| ==> IsTokenChar(toks[k].word[m]))) &&
    (forall k :: 0 <= k < |toks| - 1 ==> toks[k].index + |toks[k].word| < toks[k + 1].index)
  }

  /** `k` is the first phrase at the smallest distance from `expression`. */
  ghost predicate FirstMinimumAt(p: Primitives, words: seq<string>, expression: string, k: int)
  {
    0 <= k < |words| &&
    (forall m :: 0 <= m < |words| ==> Dist(p, expression, words[k]) <= Dist(p, expression, words[m])) &&
    (forall m :: 0 <= m < k ==> Dist(p, expression, words[k]) < Dist(p, expression, words[m]))
  }

  /** `span` is what the window of `i` tokens at token `j` produces once it
      passes the guards: it starts at the first token, its length is that of
      the joined expression, its text passes the character filter and its
      item is the closest phrase, within the distance threshold. */
  ghost predicate AcceptedAt(c: Context, text: string, toks: seq<Token>, i: nat, j: nat, span: Span)
  {
    1 <= i && AtLeastMin(c.range, i) && i <= c.range.max && j + i <= |toks| &&
    var expression := Expression(toks, j, i);
    span.start == toks[j].index &&
    span.end == span.start + |expression| &&
    AllLinkChars(Substring(text, span.start, span.end)) &&
    var best := Closest(c.prims, c.settings.words, expression);
    best.dist.Some? && best.dist.value <= c.settings.maxDistance && span.item == best.item
  }

  ghost predicate Accepted(c: Context, text: string, toks: seq<Token>, span: Span)
  {
    exists i: nat, j: nat :: AcceptedAt(c, text, toks, i, j, span)
  }

  /** In acceptance order, no span starts inside `[start, end]` of an
      earlier one. */
  ghost predicate StartGuarded(rs: seq<Span>)
  {
    forall p, q :: 0 <= p < q < |rs| ==> !(rs[p].start <= rs[q].start <= rs[p].end)
  }

  /** `span` starts at token `j` and ends no later than token `j + i - 1`. */
  ghost predicate WithinWindow(toks: seq<Token>, i: nat, j: nat, span: Span)
  {
    1 <= i && j + i <= |toks| && span.start == toks[j].index &&
    span.end <= toks[j + i - 1].index + |toks[j + i - 1].word|
  }

  ghost predicate StrictlySorted(rs: seq<Span>)
  {
    forall p, q :: 0 <= p < q < |rs| ==> rs[p].start < rs[q].start
  }

  function NodesOf(entries: seq<Entry>): (r: seq<TextNode>)
  {
    seq(|entries|, k requires 0 <= k < |entries| => entries[k].node)
  }

  // ---------------------------------------------------------------------
  // The closest phrase

  /** With no phrases the distance stays infinite and the item empty;
      otherwise the item is the first phrase at minimum distance, since a
      later phrase replaces the current one only when strictly closer. */
  lemma {:induction false} ClosestIsFirstMinimum(p: Primitives, words: seq<string>, expression: string)
    ensures words == [] ==> Closest(p, words, expression) == Best(None, "")
    ensures words != [] ==>
              exists k :: FirstMinimumAt(p, words, expression, k) &&
                Closest(p, words, expression) == Best(Some(Dist(p, expression, words[k])), words[k])
    decreases |words|
  {
    if words != [] {
      var init := words[..|words| - 1];
      var w := words[|words| - 1];
      var d := Dist(p, expression, w);
      assert forall m :: 0 <= m < |init| ==> init[m] == words[m];
      ClosestIsFirstMinimum(p, init, expression);
      if init == [] {
        assert FirstMinimumAt(p, words, expression, 0);
      } else {
        var k0 :| FirstMinimumAt(p, init, expression, k0) &&
          Closest(p, init, expression) == Best(Some(Dist(p, expression, init[k0])), init[k0]);
        if d < Dist(p, expression, init[k0]) {
          assert FirstMinimumAt(p, words, expression, |words| - 1);
        } else {
          assert FirstMinimumAt(p, words, expression, k0);
        }
      }
    }
  }

  // ---------------------------------------------------------------------
  // The span of a window

  lemma WordsLength(toks: seq<Token>)
    ensures |Words(toks)| == |toks|
  {
  }

  /** The window's end `start + expression.length` never passes the end of
      its last token (it falls short when the text has longer gaps than one
      space), and the expression is at least as long as its first word. */
  lemma {:induction false} ExpressionEnd(text: string, toks: seq<Token>, j: nat, i: nat)
    requires WellTokenized(text, toks)
    requires 1 <= i && j + i <= |toks|
    ensures toks[j].index + |Expression(toks, j, i)| <= toks[j + i - 1].index + |toks[j + i - 1].word|
    ensures |toks[j].word| <= |Expression(toks, j, i)|
    decreases i
  {
    var win := toks[j..j + i];
    WordsLength(win);
    if i > 1 {
      ExpressionEnd(text, toks, j, i - 1);
      assert win[..i - 1] == toks[j..j + i - 1];
      var ws := Words(win);
      assert ws == Words(toks[j..j + i - 1]) + [toks[j + i - 1].word];
      assert ws[..|ws| - 1] == Words(toks[j..j + i - 1]);
      assert |Expression(toks, j, i)| == |Expression(toks, j, i - 1)| + 1 + |toks[j + i - 1].word|;
      assert toks[j + i - 2].index + |toks[j + i - 2].word| < toks[j + i - 1].index;
    } else {
      assert win == [toks[j]];
      assert Words(win) == Words([]) + [toks[j].word];
    }
  }

  /** For a well-formed token list an accepted span is a non-empty range of
      the text, it starts at a token, ends no later than its last token, and
      its text holds only `[a-zA-Z0-9_'\- ]` characters. */
  lemma AcceptedInBounds(c: Context, text: string, toks: seq<Token>, span: Span)
    requires WellTokenized(text, toks)
    requires Accepted(c, text, toks, span)
    ensures span.start < span.end <= |text|
    ensures forall k :: span.start <= k < span.end ==> IsLinkChar(text[k])
    ensures exists i: nat, j: nat :: WithinWindow(toks, i, j, span)
  {
    var i: nat, j: nat :| AcceptedAt(c, text, toks, i, j, span);
    ExpressionEnd(text, toks, j, i);
    assert WithinWindow(toks, i, j, span);
    FilterPerChar(text, span.start, span.end);
  }

  /** A range of the text that passes the character filter holds only
      link characters. */
  lemma FilterPerChar(text: string, a: nat, b: nat)
    requires a <= b <= |text| && AllLinkChars(Substring(text, a, b))
    ensures forall k :: a <= k < b ==> IsLinkChar(text[k])
  {
    var piece := text[a..b];
    AllLinkCharsIff(piece);
    assert forall k :: a <= k < b ==> text[k] == piece[k - a];
  }

  // ---------------------------------------------------------------------
  // The window loops

  /** Spans are only appended, and each one raises the counter by one. */
  lemma {:induction false} WindowsGrowth(c: Context, text: string, toks: seq<Token>, i: int, j: nat, results: seq<Span>, count: int)
    requires ValidRange(c.range)
    ensures var o := Windows(c, text, toks, i, j, results, count);
            |results| <= |o.results| && o.results[..|results|] == results &&
            o.count == count + (|o.results| - |results|)
    decreases i, |toks| - j
  {
    if !AtLeastMin(c.range, i) {
    } else if j > |toks| - i {
      WindowsGrowth(c, text, toks, i - 1, 0, results, count);
      assert Windows(c, text, toks, i, j, results, count) == Windows(c, text, toks, i - 1, 0, results, count);
    } else if count < c.settings.linksPerPage {
      var next, more := WindowsNext(c, text, toks, i, j, results, count);
      WindowsGrowth(c, text, toks, i, j + 1, next, more);
      PrefixOfPrefix(results, next, Windows(c, text, toks, i, j + 1, next, more).results);
    }
  }

  /** A prefix of a prefix is a prefix. */
  lemma PrefixOfPrefix(a: seq<Span>, b: seq<Span>, o: seq<Span>)
    requires |a| <= |b| && b[..|a|] == a
    requires |b| <= |o| && o[..|b|] == b
    ensures |a| <= |o| && o[..|a|] == a
  {
    assert o[..|a|] == o[..|b|][..|a|];
  }

  /** A counter within the budget stays within it; with the budget spent no
      span is added and the counter is unchanged; the loops stop early only
      on a spent budget. */
  lemma WindowsBudget(c: Context, text: string, toks: seq<Token>, i: int, j: nat, results: seq<Span>, count: int)
    requires ValidRange(c.range)
    ensures var o := Windows(c, text, toks, i, j, results, count);
            (count <= c.settings.linksPerPage ==> o.count <= c.settings.linksPerPage) &&
            (count >= c.settings.linksPerPage ==> o.results == results && o.count == count) &&
            (o.exhausted ==> o.count >= c.settings.linksPerPage)
  {
    if count <= c.settings.linksPerPage {
      WindowsWithin(c, text, toks, i, j, results, count);
    }
    if count >= c.settings.linksPerPage {
      WindowsSpent(c, text, toks, i, j, results, count);
    }
    WindowsStopSpent(c, text, toks, i, j, results, count);
  }

  lemma {:induction false} WindowsWithin(c: Context, text: string, toks: seq<Token>, i: int, j: nat, results: seq<Span>, count: int)
    requires ValidRange(c.range)
    requires count <= c.settings.linksPerPage
    ensures Windows(c, text, toks, i, j, results, count).count <= c.settings.linksPerPage
    decreases i, |toks| - j
  {
    if !AtLeastMin(c.range, i) {
    } else if j > |toks| - i {
      WindowsWithin(c, text, toks, i - 1, 0, results, count);
      assert Windows(c, text, toks, i, j, results, count) == Windows(c, text, toks, i - 1, 0, results, count);
    } else if count < c.settings.linksPerPage {
      var next, more := WindowsNext(c, text, toks, i, j, results, count);
      WindowsWithin(c, text, toks, i, j + 1, next, more);
    }
  }

  lemma {:induction false} WindowsSpent(c: Context, text: string, toks: seq<Token>, i: int, j: nat, results: seq<Span>, count: int)
    requires ValidRange(c.range)
    requires count >= c.settings.linksPerPage
    ensures var o := Windows(c, text, toks, i, j, results, count);
            o.results == results && o.count == count
    decreases i, |toks| - j
  {
    if !AtLeastMin(c.range, i) {
    } else if j > |toks| - i {
      WindowsSpent(c, text, toks, i - 1, 0, results, count);
      assert Windows(c, text, toks, i, j, results, count) == Windows(c, text, toks, i - 1, 0, results, count);
    }
  }

  lemma {:induction false} WindowsStopSpent(c: Context, text: string, toks: seq<Token>, i: int, j: nat, results: seq<Span>, count: int)
    requires ValidRange(c.range)
    ensures var o := Windows(c, text, toks, i, j, results, count);
            o.exhausted ==> o.count >= c.settings.linksPerPage
    decreases i, |toks| - j
  {
    if !AtLeastMin(c.range, i) {
    } else if j > |toks| - i {
      WindowsStopSpent(c, text, toks, i - 1, 0, results, count);
      assert Windows(c, text, toks, i, j, results, count) == Windows(c, text, toks, i - 1, 0, results, count);
    } else if count < c.settings.linksPerPage {
      var next, more := WindowsNext(c, text, toks, i, j, results, count);
      WindowsStopSpent(c, text, toks, i, j + 1, next, more);
    }
  }

  /** One candidate within the budget: the loops go on at the next start,
      with the span added when the window is accepted. */
  lemma WindowsNext(c: Context, text: string, toks: seq<Token>, i: int, j: nat, results: seq<Span>, count: int)
      returns (next: seq<Span>, more: int)
    requires ValidRange(c.range) && AtLeastMin(c.range, i) && j <= |toks| - i
    requires count < c.settings.linksPerPage
    ensures Windows(c, text, toks, i, j, results, count) == Windows(c, text, toks, i, j + 1, next, more)
    ensures |results| <= |next| <= |results| + 1 && next[..|results|] == results
    ensures more == count + (|next| - |results|)
  {
    match Candidate(c, text, toks, i, j, results)
    case None =>
      next, more := results, count;
    case Some(span) =>
      next, more := results + [span], count + 1;
      assert next[..|results|] == results;
  }

  /** Every span the loops add is accepted for its window. */
  lemma {:induction false} WindowsSound(c: Context, text: string, toks: seq<Token>, i: int, j: nat, results: seq<Span>, count: int)
    requires ValidRange(c.range)
    requires i <= c.range.max
    requires forall s :: s in results ==> Accepted(c, text, toks, s)
    ensures forall s :: s in Windows(c, text, toks, i, j, results, count).results ==> Accepted(c, text, toks, s)
    decreases i, |toks| - j
  {
    if !AtLeastMin(c.range, i) {
    } else if j > |toks| - i {
      WindowsSound(c, text, toks, i - 1, 0, results, count);
      assert Windows(c, text, toks, i, j, results, count) == Windows(c, text, toks, i - 1, 0, results, count);
    } else if count >= c.settings.linksPerPage {
    } else {
      match Candidate(c, text, toks, i, j, results)
      case None =>
        WindowsSound(c, text, toks, i, j + 1, results, count);
        assert Windows(c, text, toks, i, j, results, count) == Windows(c, text, toks, i, j + 1, results, count);
      case Some(span) =>
        assert AcceptedAt(c, text, toks, i, j, span);
        WindowsSound(c, text, toks, i, j + 1, results + [span], count + 1);
        assert Windows(c, text, toks, i, j, results, count) ==
               Windows(c, text, toks, i, j + 1, results + [span], count + 1);
    }
  }

  /** A window: its length in tokens and its first token. */
  datatype Window = Window(len: nat, at: nat)

  /** `a` comes before `b` in the loops: a longer window, or one of the same
      length further left. */
  predicate LoopBefore(a: Window, b: Window)
  {
    a.len > b.len || (a.len == b.len && a.at < b.at)
  }

  /** Span `base + k` of `out` is accepted for window `ws[k]`. */
  ghost predicate Produced(c: Context, text: string, toks: seq<Token>, ws: seq<Window>, out: seq<Span>, base: nat)
  {
    base + |ws| == |out| &&
    forall k :: 0 <= k < |ws| ==> AcceptedAt(c, text, toks, ws[k].len, ws[k].at, out[base + k])
  }

  /** The windows come after `(i, j)` in the loops, each after the previous. */
  ghost predicate InLoopOrder(ws: seq<Window>, i: int, j: nat)
  {
    (forall k :: 0 <= k < |ws| ==> ws[k].len < i || (ws[k].len == i && j <= ws[k].at)) &&
    (forall p, q :: 0 <= p < q < |ws| ==> LoopBefore(ws[p], ws[q]))
  }

  /** The windows that produced the spans the loops add, in acceptance
      order: each span is accepted for its window, no window comes before
      the loops' starting point, and the windows follow the loop order,
      longest first and then left to right. */
  lemma {:induction false} WindowsOrder(c: Context, text: string, toks: seq<Token>, i: int, j: nat, results: seq<Span>, count: int)
      returns (ws: seq<Window>)
    requires ValidRange(c.range)
    requires i <= c.range.max
    ensures Produced(c, text, toks, ws, Windows(c, text, toks, i, j, results, count).results, |results|)
    ensures InLoopOrder(ws, i, j)
    decreases i, |toks| - j
  {
    if !AtLeastMin(c.range, i) {
      ws := [];
    } else if j > |toks| - i {
      ws := WindowsOrder(c, text, toks, i - 1, 0, results, count);
      assert Windows(c, text, toks, i, j, results, count) == Windows(c, text, toks, i - 1, 0, results, count);
      OrderLower(ws, i, j);
    } else if count >= c.settings.linksPerPage {
      ws := [];
    } else {
      match Candidate(c, text, toks, i, j, results)
      case None =>
        ws := WindowsOrder(c, text, toks, i, j + 1, results, count);
        assert Windows(c, text, toks, i, j, results, count) == Windows(c, text, toks, i, j + 1, results, count);
        OrderLater(ws, i, j);
      case Some(span) =>
        var rest := WindowsOrder(c, text, toks, i, j + 1, results + [span], count + 1);
        assert Windows(c, text, toks, i, j, results, count) ==
               Windows(c, text, toks, i, j + 1, results + [span], count + 1);
        ws := OrderAccept(c, text, toks, i, j, results, count, span, rest);
    }
  }

  /** An accepted window `(i, j)` in front of the windows of the rest of
      the loops. */
  lemma OrderAccept(c: Context, text: string, toks: seq<Token>, i: int, j: nat, results: seq<Span>, count: int,
                    span: Span, rest: seq<Window>) returns (ws: seq<Window>)
    requires ValidRange(c.range) && AtLeastMin(c.range, i) && i <= c.range.max && j <= |toks| - i
    requires Candidate(c, text, toks, i, j, results) == Some(span)
    requires Produced(c, text, toks, rest, Windows(c, text, toks, i, j + 1, results + [span], count + 1).results, |results| + 1)
    requires InLoopOrder(rest, i, j + 1)
    ensures ws == [Window(i, j)] + rest
    ensures Produced(c, text, toks, ws, Windows(c, text, toks, i, j + 1, results + [span], count + 1).results, |results|)
    ensures InLoopOrder(ws, i, j)
  {
    assert AcceptedAt(c, text, toks, i, j, span);
    WindowsGrowth(c, text, toks, i, j + 1, results + [span], count + 1);
    var out := Windows(c, text, toks, i, j + 1, results + [span], count + 1).results;
    ws := [Window(i, j)] + rest;
    ProducedStep(c, text, toks, i, j, results, span, out, rest);
    OrderStep(rest, i, j);
  }

  lemma OrderLower(ws: seq<Window>, i: int, j: nat)
    requires InLoopOrder(ws, i - 1, 0)
    ensures InLoopOrder(ws, i, j)
  {
  }

  lemma OrderLater(ws: seq<Window>, i: int, j: nat)
    requires InLoopOrder(ws, i, j + 1)
    ensures InLoopOrder(ws, i, j)
  {
  }

  /** The window `(i, j)` goes in front of the later windows. */
  lemma OrderStep(rest: seq<Window>, i: nat, j: nat)
    requires InLoopOrder(rest, i, j + 1)
    ensures InLoopOrder([Window(i, j)] + rest, i, j)
  {
    var ws := [Window(i, j)] + rest;
    forall p, q | 0 <= p < q < |ws| ensures LoopBefore(ws[p], ws[q]) {
      assert ws[q] == rest[q - 1];
      if p > 0 {
        assert ws[p] == rest[p - 1];
      }
    }
  }

  /** The span of window `(i, j)` goes in front of the later spans. */
  lemma ProducedStep(c: Context, text: string, toks: seq<Token>, i: nat, j: nat, results: seq<Span>, span: Span,
                     out: seq<Span>, rest: seq<Window>)
    requires AcceptedAt(c, text, toks, i, j, span)
    requires |results + [span]| <= |out| && out[..|results + [span]|] == results + [span]
    requires Produced(c, text, toks, rest, out, |results| + 1)
    ensures Produced(c, text, toks, [Window(i, j)] + rest, out, |results|)
  {
    var ws := [Window(i, j)] + rest;
    assert out[|results|] == (results + [span])[|results|] == span;
    forall k | 0 <= k < |ws|
      ensures AcceptedAt(c, text, toks, ws[k].len, ws[k].at, out[|results| + k])
    {
      if k > 0 {
        assert ws[k] == rest[k - 1];
        assert |results| + k == |results| + 1 + (k - 1);
      }
    }
  }

  /** The guard only checks a candidate's start: no span starts inside an
      earlier span of the same node (both ends included). */
  lemma {:induction false} WindowsGuard(c: Context, text: string, toks: seq<Token>, i: int, j: nat, results: seq<Span>, count: int)
    requires ValidRange(c.range)
    requires StartGuarded(results)
    ensures StartGuarded(Windows(c, text, toks, i, j, results, count).results)
    decreases i, |toks| - j
  {
    if !AtLeastMin(c.range, i) {
    } else if j > |toks| - i {
      WindowsGuard(c, text, toks, i - 1, 0, results, count);
      assert Windows(c, text, toks, i, j, results, count) == Windows(c, text, toks, i - 1, 0, results, count);
    } else if count >= c.settings.linksPerPage {
    } else {
      match Candidate(c, text, toks, i, j, results)
      case None =>
        WindowsGuard(c, text, toks, i, j + 1, results, count);
        assert Windows(c, text, toks, i, j, results, count) == Windows(c, text, toks, i, j + 1, results, count);
      case Some(span) =>
        assert !Covered(results, span.start);
        WindowsGuard(c, text, toks, i, j + 1, results + [span], count + 1);
        assert Windows(c, text, toks, i, j, results, count) ==
               Windows(c, text, toks, i, j + 1, results + [span], count + 1);
    }
  }

  // ---------------------------------------------------------------------
  // Sorting

  /** Inserting a span whose start is new into a strictly sorted list keeps
      it strictly sorted. */
  lemma {:induction false} InsertStrict(sorted: seq<Span>, x: Span)
    requires StrictlySorted(sorted)
    requires forall y :: y in sorted ==> y.start != x.start
    ensures StrictlySorted(InsertByStart(sorted, x))
    decreases |sorted|
  {
    if sorted != [] && sorted[|sorted| - 1].start > x.start {
      var init := sorted[..|sorted| - 1];
      var last := sorted[|sorted| - 1];
      assert forall y :: y in init ==> y in sorted;
      InsertStrict(init, x);
      var r := InsertByStart(init, x);
      assert InsertByStart(sorted, x) == r + [last];
      StrictBelowLast(sorted, x, r);
    } else if sorted != [] {
      assert sorted[|sorted| - 1] in sorted;
    }
  }

  /** The step of `InsertStrict` that puts the old last span back on top. */
  lemma StrictBelowLast(sorted: seq<Span>, x: Span, r: seq<Span>)
    requires StrictlySorted(sorted) && sorted != []
    requires x.start < sorted[|sorted| - 1].start
    requires StrictlySorted(r)
    requires multiset(r) == multiset(sorted[..|sorted| - 1]) + multiset{x}
    ensures StrictlySorted(r + [sorted[|sorted| - 1]])
  {
    var init := sorted[..|sorted| - 1];
    var last := sorted[|sorted| - 1];
    forall k | 0 <= k < |r| ensures r[k].start < last.start {
      assert r[k] in multiset(r);
      if r[k] != x {
        assert r[k] in multiset(init);
        var m :| 0 <= m < |init| && init[m] == r[k];
        assert sorted[m] == r[k];
      }
    }
  }

  /** Spans with pairwise different starts sort into strictly increasing
      starts. */
  lemma {:induction false} SortStrict(rs: seq<Span>)
    requires forall p, q :: 0 <= p < |rs| && 0 <= q < |rs| && p != q ==> rs[p].start != rs[q].start
    ensures StrictlySorted(SortByStart(rs))
    decreases |rs|
  {
    if rs != [] {
      var init := rs[..|rs| - 1];
      var x := rs[|rs| - 1];
      SortStrict(init);
      var s := SortByStart(init);
      forall y | y in s ensures y.start != x.start {
        assert y in multiset(s);
        assert y in multiset(init);
        var m :| 0 <= m < |init| && init[m] == y;
        assert rs[m] == y;
      }
      InsertStrict(s, x);
    }
  }

  /** Guarded spans that each end no earlier than they start have pairwise
      different starts. */
  lemma GuardedDistinct(rs: seq<Span>)
    requires StartGuarded(rs)
    requires forall s :: s in rs ==> s.start <= s.end
    ensures forall p, q :: 0 <= p < |rs| && 0 <= q < |rs| && p != q ==> rs[p].start != rs[q].start
  {
    forall p, q | 0 <= p < |rs| && 0 <= q < |rs| && p != q ensures rs[p].start != rs[q].start {
      assert rs[p] in rs && rs[q] in rs;
      if p < q {
        assert !(rs[p].start <= rs[q].start <= rs[p].end);
      } else {
        assert !(rs[q].start <= rs[p].start <= rs[q].end);
      }
    }
  }

  // ---------------------------------------------------------------------
  // One node

  /** One node's outcome: every span it keeps is accepted for the node's
      own tokens, the spans are in strictly increasing start order, each
      raises the counter by one, and the budget bounds hold. */
  lemma MatchTextFacts(c: Context, text: string, count: int)
    requires ValidRange(c.range)
    ensures var o := MatchText(c, text, count);
            o.count == count + |o.results| &&
            (count <= c.settings.linksPerPage ==> o.count <= c.settings.linksPerPage) &&
            (count >= c.settings.linksPerPage ==> o.results == [] && o.count == count) &&
            (o.exhausted ==> o.count >= c.settings.linksPerPage) &&
            (forall s :: s in o.results ==> Accepted(c, text, c.prims.tokens(text), s)) &&
            StrictlySorted(o.results)
  {
    var toks := c.prims.tokens(text);
    if |toks| >= c.settings.minNodeWordCount {
      var w := Windows(c, text, toks, c.range.max, 0, [], count);
      WindowsGrowth(c, text, toks, c.range.max, 0, [], count);
      WindowsBudget(c, text, toks, c.range.max, 0, [], count);
      WindowsSound(c, text, toks, c.range.max, 0, [], count);
      WindowsGuard(c, text, toks, c.range.max, 0, [], count);
      var sorted := SortByStart(w.results);
      assert |sorted| == |multiset(sorted)| == |multiset(w.results)| == |w.results|;
      forall s | s in w.results ensures s.start <= s.end {
        var i: nat, j: nat :| AcceptedAt(c, text, toks, i, j, s);
      }
      GuardedDistinct(w.results);
      SortStrict(w.results);
      forall s | s in sorted ensures Accepted(c, text, toks, s) {
        assert s in multiset(sorted);
      }
    }
  }

  /** A dictionary whose phrases have no words has an infinite minimum
      window length, so no window is tried and a node yields nothing. */
  lemma NoPhrasesNoSpans(c: Context, text: string, count: int)
    requires ValidRange(c.range) && IsWordCountRange(c.settings.words, c.range)
    requires forall k :: 0 <= k < |c.settings.words| ==> RunCount(c.settings.words[k]) == 0
    ensures MatchText(c, text, count) == Outcome([], count, false)
  {
    assert c.range.min.Infinity?;
    var toks := c.prims.tokens(text);
    assert Windows(c, text, toks, c.range.max, 0, [], count) == Outcome([], count, false);
  }

  /** Such a dictionary links nothing on the whole batch and leaves the
      counter alone. */
  lemma {:induction false} NoPhrasesNoEntries(c: Context, nodes: seq<TextNode>, count: int)
    requires ValidRange(c.range) && IsWordCountRange(c.settings.words, c.range)
    requires forall k :: 0 <= k < |c.settings.words| ==> RunCount(c.settings.words[k]) == 0
    ensures Batch(c, nodes, count) == BatchOutcome([], count, false)
    decreases |nodes|
  {
    if nodes != [] {
      NoPhrasesNoSpans(c, nodes[0].value, count);
      NoPhrasesNoEntries(c, nodes[1..], count);
    }
  }

  /** A node with fewer tokens than `minNodeWordCount` yields nothing and
      leaves the counter alone. */
  lemma ShortNodeSkipped(c: Context, text: string, count: int)
    requires ValidRange(c.range)
    requires |c.prims.tokens(text)| < c.settings.minNodeWordCount
    ensures MatchText(c, text, count) == Outcome([], count, false)
  {
  }

  // ---------------------------------------------------------------------
  // A batch of nodes

  lemma {:induction false} SpanCountAppend(a: seq<Entry>, b: seq<Entry>)
    ensures SpanCount(a + b) == SpanCount(a) + SpanCount(b)
    decreases |b|
  {
    if b == [] {
      assert a + b == a;
    } else {
      assert (a + b)[..|a + b| - 1] == a + b[..|b| - 1];
      assert (a + b)[|a + b| - 1] == b[|b| - 1];
      SpanCountAppend(a, b[..|b| - 1]);
    }
  }

  /** The counter grows by exactly the number of spans produced; within the
      budget it stays within it; with the budget spent nothing is produced
      and the counter is unchanged; a batch is cut short only on a spent
      budget. */
  lemma {:induction false} BatchBudget(c: Context, nodes: seq<TextNode>, count: int)
    requires ValidRange(c.range)
    ensures var b := Batch(c, nodes, count);
            b.count == count + SpanCount(b.entries) &&
            (count <= c.settings.linksPerPage ==> b.count <= c.settings.linksPerPage) &&
            (count >= c.settings.linksPerPage ==> b.entries == [] && b.count == count) &&
            (b.halted ==> b.count >= c.settings.linksPerPage)
    decreases |nodes|
  {
    if nodes != [] {
      var o := MatchText(c, nodes[0].value, count);
      MatchTextFacts(c, nodes[0].value, count);
      var here := if |o.results| > 0 then [Entry(nodes[0], o.results)] else [];
      assert SpanCount(here) == |o.results| by {
        if here != [] {
          assert here[..0] == [];
        }
      }
      if !o.exhausted {
        BatchBudget(c, nodes[1..], o.count);
        SpanCountAppend(here, Batch(c, nodes[1..], o.count).entries);
      }
    }
  }

  /** Every entry is one of the batch's nodes with at least one span, its
      spans strictly increasing by start and each accepted for that node. */
  lemma {:induction false} BatchEntries(c: Context, nodes: seq<TextNode>, count: int)
    requires ValidRange(c.range)
    ensures forall e :: e in Batch(c, nodes, count).entries ==>
              e.node in nodes && |e.results| >= 1 && StrictlySorted(e.results) &&
              forall s :: s in e.results ==> Accepted(c, e.node.value, c.prims.tokens(e.node.value), s)
    decreases |nodes|
  {
    if nodes != [] {
      var o := MatchText(c, nodes[0].value, count);
      MatchTextFacts(c, nodes[0].value, count);
      if !o.exhausted {
        BatchEntries(c, nodes[1..], o.count);
        assert forall n :: n in nodes[1..] ==> n in nodes;
      }
    }
  }

  lemma NodesOfCons(e: Entry, rest: seq<Entry>)
    ensures NodesOf([e] + rest) == [e.node] + NodesOf(rest)
  {
  }

  /** Entries come in the order of their nodes. */
  lemma {:induction false} BatchOrder(c: Context, nodes: seq<TextNode>, count: int)
    requires ValidRange(c.range)
    ensures Subseq(NodesOf(Batch(c, nodes, count).entries), nodes)
    decreases |nodes|
  {
    if nodes == [] {
      SubseqEmpty(nodes);
    } else {
      var o := MatchText(c, nodes[0].value, count);
      var rest := if o.exhausted then [] else Batch(c, nodes[1..], o.count).entries;
      if o.exhausted {
        SubseqEmpty(nodes[1..]);
      } else {
        BatchOrder(c, nodes[1..], o.count);
      }
      BatchOrderStep(nodes, o, rest, Batch(c, nodes, count).entries);
    }
  }

  lemma BatchOrderStep(nodes: seq<TextNode>, o: Outcome, rest: seq<Entry>, entries: seq<Entry>)
    requires nodes != []
    requires Subseq(NodesOf(rest), nodes[1..])
    requires entries == (if |o.results| > 0 then [Entry(nodes[0], o.results)] else []) + rest
    ensures Subseq(NodesOf(entries), nodes)
  {
    assert nodes == [nodes[0]] + nodes[1..];
    if |o.results| > 0 {
      NodesOfCons(Entry(nodes[0], o.results), rest);
      SubseqConsBoth(nodes[0], NodesOf(rest), nodes[1..]);
    } else {
      assert entries == rest;
      SubseqDropFront(nodes[0], NodesOf(rest), nodes[1..]);
    }
  }

  /** Running a batch on `a + b` is running it on `a` and, unless the budget
      cut `a` short, then on `b` with the counter `a` left; once cut short,
      the nodes of `b` are never examined. */
  lemma {:induction false} BatchAppend(c: Context, a: seq<TextNode>, b: seq<TextNode>, count: int)
    requires ValidRange(c.range)
    ensures var first := Batch(c, a, count);
            Batch(c, a + b, count) ==
              if first.halted then first
              else
                var second := Batch(c, b, first.count);
                BatchOutcome(first.entries + second.entries, second.count, second.halted)
    decreases |a|
  {
    if a == [] {
      assert a + b == b;
    } else {
      assert (a + b)[0] == a[0];
      assert (a + b)[1..] == a[1..] + b;
      var o := MatchText(c, a[0].value, count);
      var here := if |o.results| > 0 then [Entry(a[0], o.results)] else [];
      if !o.exhausted {
        BatchAppend(c, a[1..], b, o.count);
        var first := Batch(c, a[1..], o.count);
        if !first.halted {
          var second := Batch(c, b, first.count);
          assert here + (first.entries + second.entries) == (here + first.entries) + second.entries;
        }
      }
    }
  }
}
