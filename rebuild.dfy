/** `rebuildNodes`: each matched text node is replaced by a sequence of
    plain-text and link fragments built by walking its sorted spans. */
module Rebuild {
  import opened Chars
  import opened Extraction
  import opened Matching

  /** A text node or an `<a href>` element with its text content. */
  datatype Fragment = Text(s: string) | Link(href: string, s: string)

  /** The `DocumentFragment` that replaces the node with this identity. */
  datatype Replacement = Replacement(node: NodeId, fragments: seq<Fragment>)

  /** The fragments for the spans `rs`, with the cursor at `index`: the gap
      before a span when there is one, the span's link, then the rest; after
      the last span, the tail of the text when there is one. */
  function Splice(text: string, url: string, rs: seq<Span>, index: nat): (r: seq<Fragment>)
    decreases |rs|
  {
    if rs == [] then
      if index < |text| then [Text(Substring(text, index, |text|))] else []
    else
      var r := rs[0];
      Gap(text, index, r) + [Link(url + r.item, Substring(text, r.start, r.end))] +
      Splice(text, url, rs[1..], r.end)
  }

  /** The plain text before span `r` when the cursor is at `index`. */
  function Gap(text: string, index: nat, r: Span): (g: seq<Fragment>)
  {
    if r.start > index then [Text(Substring(text, index, r.start))] else []
  }

  lemma SpliceStep(text: string, url: string, rs: seq<Span>, k: nat, index: nat)
    requires k < |rs|
    ensures Splice(text, url, rs[k..], index) ==
            Gap(text, index, rs[k]) + [Link(url + rs[k].item, Substring(text, rs[k].start, rs[k].end))] +
            Splice(text, url, rs[k + 1..], rs[k].end)
  {
    assert rs[k..][0] == rs[k] && rs[k..][1..] == rs[k + 1..];
  }

  /** The replacements for a list of entries: detached nodes are skipped. */
  function Replacements(url: string, entries: seq<Entry>): (r: seq<Replacement>)
    decreases |entries|
  {
    if entries == [] then []
    else
      var e := entries[0];
      (if e.node.attached then [Replacement(e.node.id, Splice(e.node.value, url, e.results, 0))] else []) +
      Replacements(url, entries[1..])
  }

  method RebuildNodes(url: string, linkNodes: seq<Entry>) returns (replaced: seq<Replacement>)
    ensures replaced == Replacements(url, linkNodes)
  {
    replaced := [];
    var e := 0;
    while e < |linkNodes|
      invariant 0 <= e <= |linkNodes|
      invariant replaced + Replacements(url, linkNodes[e..]) == Replacements(url, linkNodes)
    {
      var entry := linkNodes[e];
      assert linkNodes[e..][1..] == linkNodes[e + 1..];
      ghost var rest := Replacements(url, linkNodes[e + 1..]);
      if entry.node.attached {
        var fragment := BuildFragment(url, entry.node.value, entry.results);
        assert Replacements(url, linkNodes[e..]) == [Replacement(entry.node.id, fragment)] + rest;
        assert (replaced + [Replacement(entry.node.id, fragment)]) + rest ==
               replaced + ([Replacement(entry.node.id, fragment)] + rest);
        replaced := replaced + [Replacement(entry.node.id, fragment)];
      } else {
        assert Replacements(url, linkNodes[e..]) == rest;
      }
      e := e + 1;
    }
    assert linkNodes[e..] == [];
  }

  /** The fragment for one node: the cursor `index` walks the spans. */
  method BuildFragment(url: string, nodeText: string, results: seq<Span>) returns (fragment: seq<Fragment>)
    ensures fragment == Splice(nodeText, url, results, 0)
  {
    fragment := [];
    var index: nat := 0;
    var k := 0;
    ghost var whole := Splice(nodeText, url, results, 0);
    assert results[k..] == results;
    while k < |results|
      invariant 0 <= k <= |results|
      invariant fragment + Splice(nodeText, url, results[k..], index) == whole
    {
      var result := results[k];
      ghost var before := fragment;
      BuildStep(nodeText, url, results, k, index, fragment, whole);
      if result.start > index {
        fragment := fragment + [Text(Substring(nodeText, index, result.start))];
      }
      fragment := fragment + [Link(url + result.item, Substring(nodeText, result.start, result.end))];
      assert fragment == before + Gap(nodeText, index, result) +
                         [Link(url + result.item, Substring(nodeText, result.start, result.end))];
      index := result.end;
      k := k + 1;
    }
    assert results[k..] == [];
    if index < |nodeText| {
      fragment := fragment + [Text(Substring(nodeText, index, |nodeText|))];
    }
  }

  /** One span of `BuildFragment`: its gap and link, then the fragments
      of the remaining spans from its end. */
  lemma BuildStep(text: string, url: string, rs: seq<Span>, k: nat, index: nat,
                  done: seq<Fragment>, whole: seq<Fragment>)
    requires k < |rs|
    requires done + Splice(text, url, rs[k..], index) == whole
    ensures (done + Gap(text, index, rs[k]) + [Link(url + rs[k].item, Substring(text, rs[k].start, rs[k].end))]) +
            Splice(text, url, rs[k + 1..], rs[k].end) == whole
  {
    SpliceStep(text, url, rs, k, index);
  }

  // ---------------------------------------------------------------------
  // What the fragments say

  /** The visible text of a fragment list. */
  function Texts(fs: seq<Fragment>): (r: string)
    decreases |fs|
  {
    if fs == [] then "" else fs[0].s + Texts(fs[1..])
  }

  /** The link fragments, in order. */
  function Links(fs: seq<Fragment>): (r: seq<Fragment>)
    decreases |fs|
  {
    if fs == [] then [] else (if fs[0].Link? then [fs[0]] else []) + Links(fs[1..])
  }

  lemma {:induction false} TextsAppend(a: seq<Fragment>, b: seq<Fragment>)
    ensures Texts(a + b) == Texts(a) + Texts(b)
    decreases |a|
  {
    if a == [] {
      assert a + b == b;
    } else {
      assert (a + b)[1..] == a[1..] + b;
      TextsAppend(a[1..], b);
    }
  }

  lemma {:induction false} LinksAppend(a: seq<Fragment>, b: seq<Fragment>)
    ensures Links(a + b) == Links(a) + Links(b)
    decreases |a|
  {
    if a == [] {
      assert a + b == b;
    } else {
      assert (a + b)[1..] == a[1..] + b;
      LinksAppend(a[1..], b);
    }
  }

  /** Spans from `index` on lie inside the text, each starts no earlier than
      the previous one ends, and the first no earlier than `index`. */
  ghost predicate Tiles(rs: seq<Span>, index: nat, n: nat)
  {
    index <= n &&
    (forall k :: 0 <= k < |rs| ==> rs[k].start <= rs[k].end <= n) &&
    (rs != [] ==> index <= rs[0].start) &&
    (forall k :: 0 <= k < |rs| - 1 ==> rs[k].end <= rs[k + 1].start)
  }

  lemma TilesTail(rs: seq<Span>, index: nat, n: nat)
    requires Tiles(rs, index, n) && rs != []
    ensures rs[0].start <= rs[0].end <= n && index <= rs[0].start
    ensures Tiles(rs[1..], rs[0].end, n)
  {
    assert forall k :: 0 <= k < |rs[1..]| ==> rs[1..][k] == rs[k + 1];
  }

  /** For spans that tile the text, the fragments' texts put together give
      back the text from the cursor on. */
  lemma {:induction false} SplicePreservesText(text: string, url: string, rs: seq<Span>, index: nat)
    requires Tiles(rs, index, |text|)
    ensures Texts(Splice(text, url, rs, index)) == text[index..]
    decreases |rs|
  {
    if rs == [] {
      if index < |text| {
        assert Texts([Text(text[index..])]) == text[index..] + Texts([]);
      }
    } else {
      var r := rs[0];
      var gap := Gap(text, index, r);
      var link := [Link(url + r.item, Substring(text, r.start, r.end))];
      var tail := Splice(text, url, rs[1..], r.end);
      assert Splice(text, url, rs, index) == gap + link + tail;
      TilesTail(rs, index, |text|);
      SplicePreservesText(text, url, rs[1..], r.end);
      GapAndLinkText(text, gap, link, index, r, url + r.item);
      TextsAppend(gap + link, tail);
      SplitAt(text, index, r.end);
    }
  }

  lemma GapAndLinkText(text: string, gap: seq<Fragment>, link: seq<Fragment>, index: nat, r: Span, href: string)
    requires index <= r.start <= r.end <= |text|
    requires gap == Gap(text, index, r)
    requires link == [Link(href, Substring(text, r.start, r.end))]
    ensures Texts(gap + link) == text[index..r.end]
  {
    TextsAppend(gap, link);
    assert Texts(gap) == text[index..r.start] by {
      if r.start > index {
        TextsOne(gap[0]);
      }
    }
    TextsOne(link[0]);
    Adjacent(text, index, r.start, r.end);
  }

  lemma TextsOne(f: Fragment)
    ensures Texts([f]) == f.s
  {
    assert [f][1..] == [];
  }

  /** Two adjacent ranges of a string put together. */
  lemma Adjacent(s: string, a: nat, b: nat, c: nat)
    requires a <= b <= c <= |s|
    ensures s[a..b] + s[b..c] == s[a..c]
  {
  }

  lemma SplitAt(s: string, a: nat, b: nat)
    requires a <= b <= |s|
    ensures s[a..] == s[a..b] + s[b..]
  {
  }

  /** The links are exactly one per span, in span order, each pointing at
      `url + item` and showing `text.substring(start, end)`. */
  lemma {:induction false} SpliceLinks(text: string, url: string, rs: seq<Span>, index: nat)
    ensures var links := Links(Splice(text, url, rs, index));
            |links| == |rs| &&
            forall k :: 0 <= k < |rs| ==>
              links[k] == Link(url + rs[k].item, Substring(text, rs[k].start, rs[k].end))
    decreases |rs|
  {
    if rs != [] {
      var r := rs[0];
      var gap := Gap(text, index, r);
      var link := Link(url + r.item, Substring(text, r.start, r.end));
      var tail := Splice(text, url, rs[1..], r.end);
      assert Splice(text, url, rs, index) == gap + [link] + tail;
      SpliceLinks(text, url, rs[1..], r.end);
      LinksStep(gap, link, tail);
      var links := Links(Splice(text, url, rs, index));
      forall k | 0 <= k < |rs|
        ensures links[k] == Link(url + rs[k].item, Substring(text, rs[k].start, rs[k].end))
      {
        if k > 0 {
          assert rs[k] == rs[1..][k - 1];
        }
      }
    }
  }

  /** A gap has no links, so a step of `Splice` contributes exactly its
      span's link. */
  lemma LinksStep(gap: seq<Fragment>, link: Fragment, tail: seq<Fragment>)
    requires |gap| <= 1 && (gap != [] ==> gap[0].Text?) && link.Link?
    ensures Links(gap + [link] + tail) == [link] + Links(tail)
  {
    LinksAppend(gap + [link], tail);
    LinksAppend(gap, [link]);
    assert Links([link]) == [link] + Links([]);
    if gap != [] {
      assert Links(gap) == [] + Links([]);
    }
  }

  /** Each replacement comes from an attached entry and carries that
      entry's fragments; every attached entry gets its replacement. */
  lemma {:induction false} ReplacementsOfAttached(url: string, entries: seq<Entry>)
    ensures forall r :: r in Replacements(url, entries) ==>
              exists e :: e in entries && e.node.attached &&
                r == Replacement(e.node.id, Splice(e.node.value, url, e.results, 0))
    ensures forall e :: e in entries && e.node.attached ==>
              Replacement(e.node.id, Splice(e.node.value, url, e.results, 0)) in Replacements(url, entries)
    decreases |entries|
  {
    if entries != [] {
      ReplacementsOfAttached(url, entries[1..]);
      assert forall e :: e in entries[1..] ==> e in entries;
      assert forall e :: e in entries ==> e == entries[0] || e in entries[1..];
    }
  }
}
