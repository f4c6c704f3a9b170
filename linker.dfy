/** The linker's page-lifetime state and `handleLinks`: the settings and the
    word-count range are fixed at start-up; the link counter and the cache
    of seen text nodes persist across every call, the first one on the
    initially selected posts and each later one on newly added posts. */
module Linker {
  import opened Basics
  import opened Chars
  import opened WordCount
  import opened Extraction
  import opened Matching
  import opened MatchingFacts
  import opened Rebuild

  class Session {
    const settings: Settings
    const prims: Primitives
    const range: WordRange
    /** `linkCount`: links created on this page so far. */
    var linkCount: int
    /** `nodeCache`: identities of the text nodes already handed on. */
    var cache: set<NodeId>
    /** Every entry produced so far, for stating the page-wide budget. */
    ghost var produced: seq<Entry>
    /** The identities each extraction emitted, in call order. */
    ghost var rounds: seq<set<NodeId>>

    function Ctx(): Context
    {
      Context(settings, prims, range)
    }

    /** The range is that of the dictionary, the counter is the page's
        number of links so far, never above a non-negative budget, and no
        two extractions emitted the same node. */
    ghost predicate Valid()
      reads this
    {
      IsWordCountRange(settings.words, range) &&
      0 <= linkCount <= Max(0, settings.linksPerPage) &&
      linkCount == SpanCount(produced) &&
      Rounds(rounds, cache)
    }

    /** Start-up: the range is computed once and the counter is zero. */
    constructor (settings: Settings, prims: Primitives)
      ensures Valid()
      ensures this.settings == settings && this.prims == prims
      ensures linkCount == 0 && cache == {} && produced == [] && rounds == []
    {
      this.settings := settings;
      this.prims := prims;
      var r := GetWordCountRange(settings.words);
      range := r;
      linkCount := 0;
      cache := {};
      produced := [];
      rounds := [];
    }

    /** `extractTextNodes`: each element's text nodes are walked in document
        order; a node is emitted and cached unless it is blank, already
        cached or inside a link. */
    method Extract(elements: seq<seq<TextNode>>) returns (textNodes: seq<TextNode>)
      requires Valid()
      modifies this`cache, this`rounds
      ensures Valid()
      ensures Scan(Concat(elements), old(cache)) == Extraction(textNodes, cache)
      ensures rounds == old(rounds) + [Ids(textNodes)]
    {
      textNodes := [];
      var e := 0;
      while e < |elements|
        invariant 0 <= e <= |elements|
        invariant Scan(Concat(elements[..e]), old(cache)) == Extraction(textNodes, cache)
        invariant rounds == old(rounds)
      {
        var walker := elements[e];
        var k := 0;
        assert Concat(elements[..e]) + walker[..k] == Concat(elements[..e]);
        while k < |walker|
          invariant 0 <= k <= |walker|
          invariant Scan(Concat(elements[..e]) + walker[..k], old(cache)) == Extraction(textNodes, cache)
          invariant rounds == old(rounds)
        {
          var node := walker[k];
          ghost var walked := Concat(elements[..e]) + walker[..k + 1];
          assert walked[..|walked| - 1] == Concat(elements[..e]) + walker[..k];
          if !IsBlank(node.value) && node.id !in cache {
            var inside := IsNodeInsideLink(None, node.ancestors);
            if !inside {
              textNodes := textNodes + [node];
              cache := cache + {node.id};
            }
          }
          k := k + 1;
        }
        assert walker[..k] == walker;
        ConcatStep(elements, e);
        e := e + 1;
      }
      assert elements[..e] == elements;
      ScanRounds(rounds, Concat(elements), old(cache));
      rounds := rounds + [Ids(textNodes)];
    }

    /** `processTextNodes`: the batch is matched with the page's counter,
        then the counter and the produced entries are stored. */
    method Process(nodes: seq<TextNode>) returns (linkNodes: seq<Entry>)
      requires Valid()
      modifies this`linkCount, this`produced
      ensures Valid()
      ensures var b := Batch(Ctx(), nodes, old(linkCount));
              linkNodes == b.entries && linkCount == b.count
      ensures produced == old(produced) + linkNodes
    {
      var count;
      linkNodes, count := RunBatch(Ctx(), nodes, linkCount);
      BatchBudget(Ctx(), nodes, linkCount);
      Record(count, linkNodes);
    }

    /** Stores the counter and the entries of a finished batch. */
    method Record(count: int, entries: seq<Entry>)
      requires Valid()
      requires count == linkCount + SpanCount(entries)
      requires 0 <= count <= Max(0, settings.linksPerPage)
      modifies this`linkCount, this`produced
      ensures Valid()
      ensures linkCount == count && produced == old(produced) + entries
    {
      SpanCountAppend(produced, entries);
      linkCount := count;
      produced := produced + entries;
    }

    /** `handleLinks`: extract, match, then rebuild the matched nodes. */
    method HandleLinks(elements: seq<seq<TextNode>>) returns (replaced: seq<Replacement>)
      requires Valid()
      modifies this`cache, this`rounds, this`linkCount, this`produced
      ensures Valid()
      ensures var ex := Scan(Concat(elements), old(cache));
              rounds == old(rounds) + [Ids(ex.nodes)] &&
              var b := Batch(Ctx(), ex.nodes, old(linkCount));
              cache == ex.cache && linkCount == b.count &&
              produced == old(produced) + b.entries &&
              replaced == Replacements(settings.url, b.entries)
    {
      var textNodes := Extract(elements);
      var linkNodes := Process(textNodes);
      replaced := RebuildNodes(settings.url, linkNodes);
    }
  }

  /** The loop of `processTextNodes`: each node in turn, the counter shared
      by all; the budget running out returns at once with what the current
      node has. */
  method RunBatch(c: Context, nodes: seq<TextNode>, start: int) returns (linkNodes: seq<Entry>, count: int)
    requires ValidRange(c.range)
    ensures var b := Batch(c, nodes, start);
            linkNodes == b.entries && count == b.count
  {
    linkNodes := [];
    count := start;
    var k := 0;
    ghost var all := Batch(c, nodes, start);
    assert nodes[k..] == nodes;
    while k < |nodes|
      invariant 0 <= k <= |nodes|
      invariant var rest := Batch(c, nodes[k..], count);
                all == BatchOutcome(linkNodes + rest.entries, rest.count, rest.halted)
    {
      var node := nodes[k];
      var results, newCount, exhausted := MatchNode(c, node.value, count);
      ghost var here: seq<Entry> := if |results| > 0 then [Entry(node, results)] else [];
      ghost var before := linkNodes;
      ProcessStep(c, nodes, k, count, linkNodes, results, newCount, exhausted, all);
      if |results| > 0 {
        linkNodes := linkNodes + [Entry(node, results)];
      }
      assert linkNodes == before + here;
      count := newCount;
      if exhausted {
        return;
      }
      k := k + 1;
    }
    assert nodes[k..] == [];
    assert linkNodes + [] == linkNodes;
  }

  /** One node of `processTextNodes`: the batch from node `k` on is this
      node's entry, if any, then, unless the budget ran out, the batch from
      node `k + 1` on; the counter grows by the node's spans and stays
      within a non-negative budget. */
  lemma ProcessStep(c: Context, nodes: seq<TextNode>, k: nat, count: int, done: seq<Entry>,
                    results: seq<Span>, newCount: int, exhausted: bool, all: BatchOutcome)
    requires ValidRange(c.range) && k < |nodes|
    requires Outcome(results, newCount, exhausted) == MatchText(c, nodes[k].value, count)
    requires var rest := Batch(c, nodes[k..], count);
             all == BatchOutcome(done + rest.entries, rest.count, rest.halted)
    ensures var here := if |results| > 0 then [Entry(nodes[k], results)] else [];
            newCount == count + SpanCount(here) &&
            (0 <= count <= Max(0, c.settings.linksPerPage) ==> 0 <= newCount <= Max(0, c.settings.linksPerPage)) &&
            (exhausted ==> all == BatchOutcome(done + here, newCount, true)) &&
            (!exhausted ==> var next := Batch(c, nodes[k + 1..], newCount);
                            all == BatchOutcome((done + here) + next.entries, next.count, next.halted))
  {
    assert nodes[k..][0] == nodes[k] && nodes[k..][1..] == nodes[k + 1..];
    MatchTextFacts(c, nodes[k].value, count);
    SpanCountHere(nodes[k], results);
    var here := if |results| > 0 then [Entry(nodes[k], results)] else [];
    AssocEntries(done, here, Batch(c, nodes[k + 1..], newCount).entries);
  }

  lemma SpanCountHere(node: TextNode, results: seq<Span>)
    ensures SpanCount(if |results| > 0 then [Entry(node, results)] else []) == |results|
  {
    var here: seq<Entry> := if |results| > 0 then [Entry(node, results)] else [];
    if here != [] {
      assert here[..0] == [];
    }
  }

  lemma AssocEntries(a: seq<Entry>, b: seq<Entry>, c: seq<Entry>)
    ensures (a + b) + c == a + (b + c)
  {
  }
}
