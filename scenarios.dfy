/** Concrete runs of the matcher on small inputs: an exact match, an
    approximate match, a spent budget, and one run that shows what the
    start-only overlap guard lets through. The tokeniser is given as the matches of
    `/\b[\w'-.]+\b/g` on the texts used here, `toLowerCase` as the
    identity (every text here is lower case) and `distance` as a table. */
module Scenarios {
  import opened Basics
  import opened Chars
  import opened WordCount
  import opened Matching
  import opened MatchingFacts
  import opened Extraction
  import opened Rebuild

  /** The word matches of the texts used below. */
  function Tokens(text: string): (r: seq<Token>)
  {
    if text == "a b c d" then [Token("a", 0), Token("b", 2), Token("c", 4), Token("d", 6)]
    else if text == "say hello world today" then
      [Token("say", 0), Token("hello", 4), Token("world", 10), Token("today", 16)]
    else if text == "say helo wrld today" then
      [Token("say", 0), Token("helo", 4), Token("wrld", 9), Token("today", 14)]
    else if text == "the quick fox jumps" then
      [Token("the", 0), Token("quick", 4), Token("fox", 10), Token("jumps", 14)]
    else []
  }

  /** Distance zero on equal strings, otherwise the two-edit distance of
      the misspelt pair and three for anything else. */
  function Distance(x: string, y: string): (r: int)
  {
    if x == y then 0 else if x == "helo wrld" && y == "hello world" then 2 else 3
  }

  function Prims(): (r: Primitives)
  {
    Primitives(Tokens, s => s, Distance)
  }

  /** Dictionary `["b c d", "a b"]`, exact matches only, ten links. */
  function OverlapContext(): (r: Context)
  {
    Context(Settings(["b c d", "a b"], "/w/", 0, 0, 10), Prims(), WordRange(Finite(2), 3))
  }

  /** Its word-count range is two to three. */
  lemma OverlapRange()
    ensures IsWordCountRange(OverlapContext().settings.words, OverlapContext().range)
  {
    var words := OverlapContext().settings.words;
    JoinOfThree("b", "c", "d");
    assert Join(["b", "c", "d"]) == "b c d" == words[0];
    RunCountJoin(["b", "c", "d"]);
    JoinOfTwo("a", "b");
    assert Join(["a", "b"]) == "a b" == words[1];
    RunCountJoin(["a", "b"]);
    assert RunCount(words[0]) == 3 && RunCount(words[1]) == 2;
  }

  /** A window is accepted when it starts outside the earlier spans, its
      text passes the character filter and its closest phrase is within
      `maxDistance`. */
  lemma CandidateAccepted(c: Context, text: string, toks: seq<Token>, i: nat, j: nat, results: seq<Span>,
                          start: nat, end: nat, best: Best)
    requires 1 <= i && j + i <= |toks|
    requires start == toks[j].index && end == start + |Expression(toks, j, i)|
    requires !Covered(results, start) && AllLinkChars(Substring(text, start, end))
    requires best == Closest(c.prims, c.settings.words, Expression(toks, j, i))
    requires best.dist.Some? && best.dist.value <= c.settings.maxDistance
    ensures Candidate(c, text, toks, i, j, results) == Some(Span(start, end, best.item))
  {
  }

  /** A window whose closest phrase is beyond `maxDistance` is rejected. */
  lemma CandidateTooFar(c: Context, text: string, toks: seq<Token>, i: nat, j: nat, results: seq<Span>,
                        e: string, d: int)
    requires 1 <= i && j + i <= |toks|
    requires Expression(toks, j, i) == e
    requires Closest(c.prims, c.settings.words, e).dist == Some(d) && d > c.settings.maxDistance
    ensures Candidate(c, text, toks, i, j, results) == None
  {
  }

  lemma OverlapExpressionABC()
    ensures Expression(Tokens("a b c d"), 0, 3) == "a b c"
  {
    var toks := Tokens("a b c d");
    assert toks[0..3] == [toks[0], toks[1], toks[2]];
    WordsOfThree(toks[0], toks[1], toks[2]);
    JoinOfThree("a", "b", "c");
    assert "a" + " " + "b" + " " + "c" == "a b c";
  }

  lemma OverlapExpressionBCD()
    ensures Expression(Tokens("a b c d"), 1, 3) == "b c d"
  {
    var toks := Tokens("a b c d");
    assert toks[1..4] == [toks[1], toks[2], toks[3]];
    WordsOfThree(toks[1], toks[2], toks[3]);
    JoinOfThree("b", "c", "d");
    assert "b" + " " + "c" + " " + "d" == "b c d";
  }

  lemma OverlapExpressionAB()
    ensures Expression(Tokens("a b c d"), 0, 2) == "a b"
  {
    var toks := Tokens("a b c d");
    assert toks[0..2] == [toks[0], toks[1]];
    WordsOfTwo(toks[0], toks[1]);
    JoinOfTwo("a", "b");
  }

  /** Both accepted texts pass the character filter. */
  lemma OverlapFilter()
    ensures AllLinkChars(Substring("a b c d", 2, 7))
    ensures AllLinkChars(Substring("a b c d", 0, 3))
  {
    var text := "a b c d";
    assert text[2..7] == "b c d";
    assert text[0..3] == "a b";
    AllLinkCharsIff("b c d");
    AllLinkCharsIff("a b");
  }

  /** The closest phrases of the three windows that reach the distance
      check. */
  lemma OverlapClosest()
    ensures Closest(Prims(), ["b c d", "a b"], "a b c") == Best(Some(3), "b c d")
    ensures Closest(Prims(), ["b c d", "a b"], "b c d") == Best(Some(0), "b c d")
    ensures Closest(Prims(), ["b c d", "a b"], "a b") == Best(Some(0), "a b")
  {
    assert ["b c d", "a b"][..1] == ["b c d"];
    assert ["b c d"][..0] == [];
  }

  /** The three-word window at token 0 is `"a b c"`, in no phrase. */
  lemma OverlapFirstWindow()
    ensures Candidate(OverlapContext(), "a b c d", Tokens("a b c d"), 3, 0, []) == None
  {
    OverlapExpressionABC();
    OverlapClosest();
    CandidateTooFar(OverlapContext(), "a b c d", Tokens("a b c d"), 3, 0, [], "a b c", 3);
  }

  /** The three-word window at token 1 is `"b c d"`, linked at `[2, 7)`. */
  lemma OverlapSecondWindow()
    ensures Candidate(OverlapContext(), "a b c d", Tokens("a b c d"), 3, 1, []) == Some(Span(2, 7, "b c d"))
  {
    OverlapExpressionBCD();
    OverlapFilter();
    OverlapClosest();
    CandidateAccepted(OverlapContext(), "a b c d", Tokens("a b c d"), 3, 1, [], 2, 7, Best(Some(0), "b c d"));
  }

  /** The two-word window at token 0 is `"a b"`; its start 0 lies outside
      `[2, 7]`, so it is linked at `[0, 3)`. */
  lemma OverlapThirdWindow()
    ensures Candidate(OverlapContext(), "a b c d", Tokens("a b c d"), 2, 0, [Span(2, 7, "b c d")]) ==
            Some(Span(0, 3, "a b"))
  {
    OverlapExpressionAB();
    OverlapFilter();
    OverlapClosest();
    assert !Covered([Span(2, 7, "b c d")], 0);
    CandidateAccepted(OverlapContext(), "a b c d", Tokens("a b c d"), 2, 0, [Span(2, 7, "b c d")], 0, 3, Best(Some(0), "a b"));
  }

  /** The two-word windows at tokens 1 and 2 start at 2 and 4, inside
      `[2, 7]`. */
  lemma OverlapCoveredWindows()
    ensures var both := [Span(2, 7, "b c d"), Span(0, 3, "a b")];
            Candidate(OverlapContext(), "a b c d", Tokens("a b c d"), 2, 1, both) == None &&
            Candidate(OverlapContext(), "a b c d", Tokens("a b c d"), 2, 2, both) == None
  {
    var both := [Span(2, 7, "b c d"), Span(0, 3, "a b")];
    assert both[0].start <= 2 <= both[0].end;
    assert both[0].start <= 4 <= both[0].end;
  }

  lemma WindowsOnNone(c: Context, text: string, toks: seq<Token>, i: int, j: nat, results: seq<Span>, count: int)
    requires ValidRange(c.range) && AtLeastMin(c.range, i) && j <= |toks| - i
    requires count < c.settings.linksPerPage
    requires Candidate(c, text, toks, i, j, results) == None
    ensures Windows(c, text, toks, i, j, results, count) == Windows(c, text, toks, i, j + 1, results, count)
  {
  }

  lemma WindowsOnSome(c: Context, text: string, toks: seq<Token>, i: int, j: nat, results: seq<Span>, count: int, span: Span)
    requires ValidRange(c.range) && AtLeastMin(c.range, i) && j <= |toks| - i
    requires count < c.settings.linksPerPage
    requires Candidate(c, text, toks, i, j, results) == Some(span)
    ensures Windows(c, text, toks, i, j, results, count) == Windows(c, text, toks, i, j + 1, results + [span], count + 1)
  {
  }

  /** Both phrases are linked in `"a b c d"`: the three-word window is
      accepted first, and the later two-word window at offset 0 starts
      outside it, so the spans `[0, 3)` and `[2, 7)` share the text `" b"`. */
  lemma OverlapAdmitted()
    ensures IsWordCountRange(OverlapContext().settings.words, OverlapContext().range)
    ensures MatchText(OverlapContext(), "a b c d", 0) ==
            Outcome([Span(0, 3, "a b"), Span(2, 7, "b c d")], 2, false)
    ensures var o := MatchText(OverlapContext(), "a b c d", 0);
            |o.results| == 2 && o.results[0].end > o.results[1].start
  {
    var c := OverlapContext();
    var text := "a b c d";
    var toks := Tokens(text);
    var s1 := Span(2, 7, "b c d");
    var s2 := Span(0, 3, "a b");
    OverlapRange();
    OverlapThreeWordPass();
    OverlapTwoWordPass();
    SortTwo(s1, s2);
  }

  /** Rebuilding the node with those two spans shows the shared `"b"`
      twice: the visible text changes from `"a b c d"` to `"a bb c d"`. */
  lemma OverlapRebuilt(url: string)
    ensures Texts(Splice("a b c d", url, [Span(0, 3, "a b"), Span(2, 7, "b c d")], 0)) == "a bb c d"
  {
    var text := "a b c d";
    var rs := [Span(0, 3, "a b"), Span(2, 7, "b c d")];
    var first := Link(url + "a b", "a b");
    var second := Link(url + "b c d", "b c d");
    assert Substring(text, 0, 3) == "a b";
    assert Substring(text, 2, 7) == "b c d";
    assert rs[0] == Span(0, 3, "a b") && rs[1..] == [Span(2, 7, "b c d")];
    assert [Span(2, 7, "b c d")][1..] == [];
    assert Splice(text, url, [], 7) == [];
    assert Splice(text, url, rs[1..], 3) == [second];
    assert Splice(text, url, rs, 0) == [first, second];
    TextsAppend([first], [second]);
    TextsOne(first);
    TextsOne(second);
    assert [first] + [second] == [first, second];
  }

  /** The three-word windows link `"b c d"` and hand over to length two. */
  lemma OverlapThreeWordPass()
    ensures Windows(OverlapContext(), "a b c d", Tokens("a b c d"), 3, 0, [], 0) ==
            Windows(OverlapContext(), "a b c d", Tokens("a b c d"), 2, 0, [Span(2, 7, "b c d")], 1)
  {
    var c := OverlapContext();
    var text := "a b c d";
    var toks := Tokens(text);
    var s1 := Span(2, 7, "b c d");
    OverlapFirstWindow();
    OverlapSecondWindow();
    assert Windows(c, text, toks, 3, 2, [s1], 1) == Windows(c, text, toks, 2, 0, [s1], 1);
    WindowsOnSome(c, text, toks, 3, 1, [], 0, s1);
    assert [] + [s1] == [s1];
    WindowsOnNone(c, text, toks, 3, 0, [], 0);
  }

  /** The two-word windows link `"a b"` and hand over to the rest of the
      two-word pass. */
  lemma OverlapTwoWordPass()
    ensures Windows(OverlapContext(), "a b c d", Tokens("a b c d"), 2, 0, [Span(2, 7, "b c d")], 1) ==
            Outcome([Span(2, 7, "b c d"), Span(0, 3, "a b")], 2, false)
  {
    var s1 := Span(2, 7, "b c d");
    var s2 := Span(0, 3, "a b");
    OverlapThirdWindow();
    assert [s1] + [s2] == [s1, s2];
    WindowsOnSome(OverlapContext(), "a b c d", Tokens("a b c d"), 2, 0, [s1], 1, s2);
    OverlapTwoWordTail();
  }

  /** The two-word windows at tokens 1 and 2 add nothing; the one-word
      length is below the minimum, so the loops end there. */
  lemma OverlapTwoWordTail()
    ensures Windows(OverlapContext(), "a b c d", Tokens("a b c d"), 2, 1, [Span(2, 7, "b c d"), Span(0, 3, "a b")], 2) ==
            Outcome([Span(2, 7, "b c d"), Span(0, 3, "a b")], 2, false)
  {
    var c := OverlapContext();
    var text := "a b c d";
    var toks := Tokens(text);
    var both := [Span(2, 7, "b c d"), Span(0, 3, "a b")];
    OverlapCoveredWindows();
    var done := Outcome(both, 2, false);
    assert Windows(c, text, toks, 1, 0, both, 2) == done;
    assert Windows(c, text, toks, 2, 3, both, 2) == done;
    WindowsOnNone(c, text, toks, 2, 2, both, 2);
    WindowsOnNone(c, text, toks, 2, 1, both, 2);
  }

  /** Two spans given in decreasing order of start are swapped. */
  lemma SortTwo(x: Span, y: Span)
    requires y.start < x.start
    ensures SortByStart([x, y]) == [y, x]
  {
    assert [x, y][..1] == [x];
    assert [x][..0] == [];
    assert SortByStart([x]) == [x];
    assert [x][..0] == [];
    assert InsertByStart([], y) == [y];
  }

  /** Dictionary `["hello world"]`, nodes of at least two words, the
      given distance threshold and budget. */
  function HelloContext(maxDistance: int, linksPerPage: int): (r: Context)
  {
    Context(Settings(["hello world"], "/w/", 2, maxDistance, linksPerPage), Prims(), WordRange(Finite(2), 2))
  }

  /** Its word-count range is two to two. */
  lemma HelloRange(maxDistance: int, linksPerPage: int)
    ensures IsWordCountRange(HelloContext(maxDistance, linksPerPage).settings.words,
                             HelloContext(maxDistance, linksPerPage).range)
  {
    var words := HelloContext(maxDistance, linksPerPage).settings.words;
    JoinOfTwo("hello", "world");
    assert Join(["hello", "world"]) == "hello world" == words[0];
    RunCountJoin(["hello", "world"]);
    assert RunCount(words[0]) == 2;
  }

  /** The two-word expressions at offsets 0 and 1 of tokens whose first
      words are `a`, `b` and `c`: each joins its two words with one space. */
  lemma PairExpressions(toks: seq<Token>, a: string, b: string, c: string)
    requires |toks| >= 3 && toks[0].word == a && toks[1].word == b && toks[2].word == c
    ensures Expression(toks, 0, 2) == a + " " + b
    ensures Expression(toks, 1, 2) == b + " " + c
  {
    assert toks[0..2] == [toks[0], toks[1]];
    assert toks[1..3] == [toks[1], toks[2]];
    WordsOfTwo(toks[0], toks[1]);
    WordsOfTwo(toks[1], toks[2]);
    JoinOfTwo(a, b);
    JoinOfTwo(b, c);
  }

  /** The closest phrases of the windows that reach the distance check. */
  lemma HelloClosest()
    ensures Closest(Prims(), ["hello world"], "say hello") == Best(Some(3), "hello world")
    ensures Closest(Prims(), ["hello world"], "hello world") == Best(Some(0), "hello world")
    ensures Closest(Prims(), ["hello world"], "say helo") == Best(Some(3), "hello world")
    ensures Closest(Prims(), ["hello world"], "helo wrld") == Best(Some(2), "hello world")
  {
    assert ["hello world"][..0] == [];
  }

  /** The text of the misspelt match, which passes the character filter. */
  lemma MisspeltSlice()
    ensures Substring("say helo wrld today", 4, 13) == "helo wrld"
    ensures AllLinkChars("helo wrld")
  {
    var text := "say helo wrld today";
    assert text[4..13] == "helo wrld";
    AllLinkCharsIff("helo wrld");
  }

  /** The windows of `"say hello world today"`: `"say hello"` is no match, `"hello world"` is linked, and `"world today"` starts inside it. */
  lemma HelloExactWindows(maxDistance: int, linksPerPage: int)
    requires 0 <= maxDistance < 3
    ensures var c := HelloContext(maxDistance, linksPerPage);
            var toks := Tokens("say hello world today");
            |toks| == 4 &&
            Candidate(c, "say hello world today", toks, 2, 0, []) == None
    ensures var c := HelloContext(maxDistance, linksPerPage);
            var toks := Tokens("say hello world today");
            Candidate(c, "say hello world today", toks, 2, 1, []) == Some(Span(4, 15, "hello world"))
    ensures var c := HelloContext(maxDistance, linksPerPage);
            var toks := Tokens("say hello world today");
            Candidate(c, "say hello world today", toks, 2, 2, [Span(4, 15, "hello world")]) == None
  {
    var c := HelloContext(maxDistance, linksPerPage);
    var text := "say hello world today";
    var toks := Tokens(text);
    PairExpressions(toks, "say", "hello", "world");
    HelloClosest();
    HelloSlice();
    CandidateTooFar(c, text, toks, 2, 0, [], "say hello", 3);
    CandidateAccepted(c, text, toks, 2, 1, [], 4, 15, Best(Some(0), "hello world"));
    var span := Span(4, 15, "hello world");
    assert [span][0].start <= 10 <= [span][0].end;
  }

  /** The text of the exact match, which passes the character filter. */
  lemma HelloSlice()
    ensures Substring("say hello world today", 4, 15) == "hello world"
    ensures AllLinkChars("hello world")
  {
    var text := "say hello world today";
    assert text[4..15] == "hello world";
    AllLinkCharsIff("hello world");
  }

  /** The windows of `"say helo wrld today"`: `"say helo"` is no match, `"helo wrld"` is within distance 2 of `"hello world"`, and `"wrld today"` starts inside it. */
  lemma HelloApproximateWindows(maxDistance: int, linksPerPage: int)
    requires 2 <= maxDistance < 3
    ensures var c := HelloContext(maxDistance, linksPerPage);
            var toks := Tokens("say helo wrld today");
            |toks| == 4 &&
            Candidate(c, "say helo wrld today", toks, 2, 0, []) == None &&
            Candidate(c, "say helo wrld today", toks, 2, 1, []) == Some(Span(4, 13, "hello world")) &&
            Candidate(c, "say helo wrld today", toks, 2, 2, [Span(4, 13, "hello world")]) == None
  {
    var c := HelloContext(maxDistance, linksPerPage);
    var text := "say helo wrld today";
    var toks := Tokens(text);
    PairExpressions(toks, "say", "helo", "wrld");
    HelloClosest();
    MisspeltSlice();
    CandidateTooFar(c, text, toks, 2, 0, [], "say helo", 3);
    CandidateAccepted(c, text, toks, 2, 1, [], 4, 13, Best(Some(2), "hello world"));
    var span := Span(4, 13, "hello world");
    assert [span][0].start <= 9 <= [span][0].end;
  }

  /** `"say hello world today"` with threshold 0: exactly one span, over
      `"hello world"`. */
  lemma HelloExact()
    ensures MatchText(HelloContext(0, 10), "say hello world today", 0) ==
            Outcome([Span(4, 15, "hello world")], 1, false)
  {
    HelloExactPass();
    SortOne(Span(4, 15, "hello world"));
  }

  /** The window loops over `"say hello world today"` with threshold 0. */
  lemma HelloExactPass()
    ensures Windows(HelloContext(0, 10), "say hello world today", Tokens("say hello world today"), 2, 0, [], 0) ==
            Outcome([Span(4, 15, "hello world")], 1, false)
  {
    var c := HelloContext(0, 10);
    var text := "say hello world today";
    var toks := Tokens(text);
    var span := Span(4, 15, "hello world");
    HelloExactWindows(0, 10);
    var done := Outcome([span], 1, false);
    assert Windows(c, text, toks, 1, 0, [span], 1) == done;
    assert Windows(c, text, toks, 2, 3, [span], 1) == done;
    WindowsOnNone(c, text, toks, 2, 2, [span], 1);
    assert [] + [span] == [span];
    WindowsOnSome(c, text, toks, 2, 1, [], 0, span);
    WindowsOnNone(c, text, toks, 2, 0, [], 0);
  }

  /** One span is already sorted. */
  lemma SortOne(x: Span)
    ensures SortByStart([x]) == [x]
  {
    assert [x][..0] == [];
  }

  /** That node is rebuilt as `"say "`, the link to `url + "hello world"`,
      and `" today"`. */
  lemma HelloRebuilt()
    ensures Splice("say hello world today", "/w/", [Span(4, 15, "hello world")], 0) ==
            [Text("say "), Link("/w/hello world", "hello world"), Text(" today")]
  {
    var text := "say hello world today";
    assert Substring(text, 0, 4) == "say ";
    assert Substring(text, 4, 15) == "hello world";
    assert Substring(text, 15, 21) == " today";
    var rs := [Span(4, 15, "hello world")];
    assert rs[0] == Span(4, 15, "hello world") && rs[1..] == [];
    assert Splice(text, "/w/", [], 15) == [Text(" today")];
    assert "/w/" + "hello world" == "/w/hello world";
    assert Splice(text, "/w/", rs, 0) == [Text("say ")] + [Link("/w/hello world", "hello world")] + [Text(" today")];
  }

  /** `"say helo wrld today"` with threshold 2: one span over `"helo wrld"`,
      still linked to `"hello world"`. */
  lemma HelloApproximate()
    ensures MatchText(HelloContext(2, 10), "say helo wrld today", 0) ==
            Outcome([Span(4, 13, "hello world")], 1, false)
  {
    HelloApproximatePass();
    SortOne(Span(4, 13, "hello world"));
  }

  /** The window loops over `"say helo wrld today"` with threshold 2. */
  lemma HelloApproximatePass()
    ensures Windows(HelloContext(2, 10), "say helo wrld today", Tokens("say helo wrld today"), 2, 0, [], 0) ==
            Outcome([Span(4, 13, "hello world")], 1, false)
  {
    var c := HelloContext(2, 10);
    var text := "say helo wrld today";
    var toks := Tokens(text);
    var span := Span(4, 13, "hello world");
    HelloApproximateWindows(2, 10);
    var done := Outcome([span], 1, false);
    assert Windows(c, text, toks, 1, 0, [span], 1) == done;
    assert Windows(c, text, toks, 2, 3, [span], 1) == done;
    WindowsOnNone(c, text, toks, 2, 2, [span], 1);
    assert [] + [span] == [span];
    WindowsOnSome(c, text, toks, 2, 1, [], 0, span);
    WindowsOnNone(c, text, toks, 2, 0, [], 0);
  }

  /** With a budget of one link, the first node's link spends it and the
      batch stops there: whatever the second node holds, it gets no entry
      and is never matched. */
  lemma BudgetOfOne(first: TextNode, second: TextNode)
    requires first.value == "say hello world today"
    ensures Batch(HelloContext(0, 1), [first, second], 0) ==
            BatchOutcome([Entry(first, [Span(4, 15, "hello world")])], 1, true)
  {
    BudgetOfOnePass();
    SortOne(Span(4, 15, "hello world"));
    assert MatchText(HelloContext(0, 1), first.value, 0) == Outcome([Span(4, 15, "hello world")], 1, true);
  }

  /** The window loops stop with the budget spent right after the link. */
  lemma BudgetOfOnePass()
    ensures Windows(HelloContext(0, 1), "say hello world today", Tokens("say hello world today"), 2, 0, [], 0) ==
            Outcome([Span(4, 15, "hello world")], 1, true)
  {
    var c := HelloContext(0, 1);
    var text := "say hello world today";
    var toks := Tokens(text);
    var span := Span(4, 15, "hello world");
    HelloExactWindows(0, 1);
    assert Windows(c, text, toks, 2, 2, [span], 1) == Outcome([span], 1, true);
    assert [] + [span] == [span];
    WindowsOnSome(c, text, toks, 2, 1, [], 0, span);
    WindowsOnNone(c, text, toks, 2, 0, [], 0);
  }

  /** Dictionary `["quick fox", "fox"]`, exact matches only, ten links,
      windows of one and two words. */
  function FoxContext(): (r: Context)
  {
    Context(Settings(["quick fox", "fox"], "/w/", 2, 0, 10), Prims(), WordRange(Finite(1), 2))
  }

  /** Its word-count range is one to two. */
  lemma FoxRange()
    ensures IsWordCountRange(FoxContext().settings.words, FoxContext().range)
  {
    var words := FoxContext().settings.words;
    JoinOfTwo("quick", "fox");
    assert Join(["quick", "fox"]) == "quick fox" == words[0];
    RunCountJoin(["quick", "fox"]);
    assert Join(["fox"]) == "fox" == words[1];
    RunCountJoin(["fox"]);
    assert RunCount(words[0]) == 2 && RunCount(words[1]) == 1;
  }

  /** A one-word window's expression is its word. */
  lemma SingleExpression(toks: seq<Token>, j: nat)
    requires j < |toks|
    ensures Expression(toks, j, 1) == toks[j].word
  {
    assert toks[j..j + 1] == [toks[j]];
    assert [toks[j]][..0] == [];
    assert Words([toks[j]]) == [toks[j].word];
  }

  /** The closest phrases of the windows that reach the distance check:
      only `"quick fox"` is at distance zero. */
  lemma FoxClosest()
    ensures Closest(Prims(), ["quick fox", "fox"], "the quick") == Best(Some(3), "quick fox")
    ensures Closest(Prims(), ["quick fox", "fox"], "quick fox") == Best(Some(0), "quick fox")
    ensures Closest(Prims(), ["quick fox", "fox"], "the") == Best(Some(3), "quick fox")
    ensures Closest(Prims(), ["quick fox", "fox"], "jumps") == Best(Some(3), "quick fox")
  {
    assert ["quick fox", "fox"][..1] == ["quick fox"];
    assert ["quick fox"][..0] == [];
  }

  /** The text of the two-word match, which passes the character filter. */
  lemma FoxSlice()
    ensures Substring("the quick fox jumps", 4, 13) == "quick fox"
    ensures AllLinkChars("quick fox")
  {
    var text := "the quick fox jumps";
    assert text[4..13] == "quick fox";
    AllLinkCharsIff("quick fox");
  }

  /** The two-word windows: `"the quick"` is no match, `"quick fox"` is
      linked, and `"fox jumps"` starts inside it. */
  lemma FoxLongWindows()
    ensures var toks := Tokens("the quick fox jumps");
            |toks| == 4 &&
            Candidate(FoxContext(), "the quick fox jumps", toks, 2, 0, []) == None &&
            Candidate(FoxContext(), "the quick fox jumps", toks, 2, 1, []) == Some(Span(4, 13, "quick fox")) &&
            Candidate(FoxContext(), "the quick fox jumps", toks, 2, 2, [Span(4, 13, "quick fox")]) == None
  {
    var c := FoxContext();
    var text := "the quick fox jumps";
    var toks := Tokens(text);
    PairExpressions(toks, "the", "quick", "fox");
    FoxClosest();
    FoxSlice();
    CandidateTooFar(c, text, toks, 2, 0, [], "the quick", 3);
    CandidateAccepted(c, text, toks, 2, 1, [], 4, 13, Best(Some(0), "quick fox"));
    var span := Span(4, 13, "quick fox");
    assert [span][0].start <= 10 <= [span][0].end;
  }

  /** The one-word windows after the link: `"the"` and `"jumps"` are no
      match, and `"quick"` and `"fox"` start inside the linked span. */
  lemma FoxShortWindows()
    ensures var toks := Tokens("the quick fox jumps");
            var rs := [Span(4, 13, "quick fox")];
            |toks| == 4 &&
            Candidate(FoxContext(), "the quick fox jumps", toks, 1, 0, rs) == None &&
            Candidate(FoxContext(), "the quick fox jumps", toks, 1, 1, rs) == None &&
            Candidate(FoxContext(), "the quick fox jumps", toks, 1, 2, rs) == None &&
            Candidate(FoxContext(), "the quick fox jumps", toks, 1, 3, rs) == None
  {
    var c := FoxContext();
    var text := "the quick fox jumps";
    var toks := Tokens(text);
    var rs := [Span(4, 13, "quick fox")];
    SingleExpression(toks, 0);
    SingleExpression(toks, 3);
    FoxClosest();
    CandidateTooFar(c, text, toks, 1, 0, rs, "the", 3);
    CandidateTooFar(c, text, toks, 1, 3, rs, "jumps", 3);
    assert rs[0].start <= 4 <= rs[0].end;
    assert rs[0].start <= 10 <= rs[0].end;
  }

  /** The window loops over `"the quick fox jumps"`: one link, and no
      one-word window is linked after it. */
  lemma FoxPass()
    ensures Windows(FoxContext(), "the quick fox jumps", Tokens("the quick fox jumps"), 2, 0, [], 0) ==
            Outcome([Span(4, 13, "quick fox")], 1, false)
  {
    var c := FoxContext();
    var text := "the quick fox jumps";
    var toks := Tokens(text);
    var span := Span(4, 13, "quick fox");
    FoxLongWindows();
    FoxShortWindows();
    var done := Outcome([span], 1, false);
    assert Windows(c, text, toks, 0, 0, [span], 1) == done;
    assert Windows(c, text, toks, 1, 4, [span], 1) == done;
    WindowsOnNone(c, text, toks, 1, 3, [span], 1);
    WindowsOnNone(c, text, toks, 1, 2, [span], 1);
    WindowsOnNone(c, text, toks, 1, 1, [span], 1);
    WindowsOnNone(c, text, toks, 1, 0, [span], 1);
    assert Windows(c, text, toks, 2, 3, [span], 1) == done;
    WindowsOnNone(c, text, toks, 2, 2, [span], 1);
    assert [] + [span] == [span];
    WindowsOnSome(c, text, toks, 2, 1, [], 0, span);
    WindowsOnNone(c, text, toks, 2, 0, [], 0);
  }

  /** Longest match first: with `["quick fox", "fox"]`, `"the quick fox
      jumps"` links `"quick fox"` alone, never `"fox"` inside it. */
  lemma LongestFirst()
    ensures MatchText(FoxContext(), "the quick fox jumps", 0) ==
            Outcome([Span(4, 13, "quick fox")], 1, false)
  {
    FoxPass();
    SortOne(Span(4, 13, "quick fox"));
  }

  lemma WordsOfTwo(a: Token, b: Token)
    ensures Words([a, b]) == [a.word, b.word]
  {
    assert [a, b][..1] == [a];
    assert [a][..0] == [];
    assert Words([a]) == [a.word];
  }

  lemma WordsOfThree(a: Token, b: Token, c: Token)
    ensures Words([a, b, c]) == [a.word, b.word, c.word]
  {
    assert [a, b, c][..2] == [a, b];
    WordsOfTwo(a, b);
  }

  lemma JoinOfTwo(a: string, b: string)
    ensures Join([a, b]) == a + " " + b
  {
    assert [a, b][..1] == [a];
  }

  lemma JoinOfThree(a: string, b: string, c: string)
    ensures Join([a, b, c]) == a + " " + b + " " + c
  {
    assert [a, b, c][..2] == [a, b];
    JoinOfTwo(a, b);
  }
}
