/** Text-node extraction: which text nodes of the scanned elements are handed
    to the matcher, and the set of already-seen node identities. */
module Extraction {
  import opened Basics
  import opened Chars

  /** The identity of a DOM text node (the key of linker.js's `WeakSet`). */
  type NodeId = nat

  /** A text node as the tree walker yields it: its identity, its
      `nodeValue`, the `tagName`s of its `parentElement` chain (nearest
      first), and whether it still has a `parentNode`. */
  datatype TextNode = TextNode(id: NodeId, value: string, ancestors: seq<string>, attached: bool)

  /** Some enclosing element is an `A`. */
  predicate InsideLink(n: TextNode)
  {
    exists k :: 0 <= k < |n.ancestors| && n.ancestors[k] == "A"
  }

  /** `isNodeInsideLink`: the element itself or one of its ancestors is an
      `A`. A text node has no `tagName`, which is `None` here. */
  method IsNodeInsideLink(tagName: Option<string>, ancestors: seq<string>) returns (inside: bool)
    ensures inside <==> tagName == Some("A") || exists k :: 0 <= k < |ancestors| && ancestors[k] == "A"
  {
    if tagName == Some("A") {
      return true;
    }
    var parent := 0;
    while parent < |ancestors|
      invariant 0 <= parent <= |ancestors|
      invariant forall m :: 0 <= m < parent ==> ancestors[m] != "A"
    {
      if ancestors[parent] == "A" {
        return true;
      }
      parent := parent + 1;
    }
    return false;
  }

  /** The three filters applied to each walked node, given the cache so far. */
  predicate Admits(n: TextNode, cache: set<NodeId>)
  {
    !IsBlank(n.value) && n.id !in cache && !InsideLink(n)
  }

  /** The emitted nodes and the cache after them. */
  datatype Extraction = Extraction(nodes: seq<TextNode>, cache: set<NodeId>)

  /** The nodes `extractTextNodes` emits for a walk, in walk order, and the
      cache it leaves: each admitted node is emitted and cached at once. */
  function Scan(walk: seq<TextNode>, cache: set<NodeId>): (r: Extraction)
    decreases |walk|
  {
    if walk == [] then Extraction([], cache)
    else
      var prev := Scan(walk[..|walk| - 1], cache);
      var n := walk[|walk| - 1];
      if Admits(n, prev.cache) then Extraction(prev.nodes + [n], prev.cache + {n.id}) else prev
  }

  /** The walks of several elements, one after another. */
  function Concat(walks: seq<seq<TextNode>>): (r: seq<TextNode>)
    decreases |walks|
  {
    if walks == [] then [] else Concat(walks[..|walks| - 1]) + walks[|walks| - 1]
  }

  function Ids(ns: seq<TextNode>): (r: set<NodeId>)
  {
    set k | 0 <= k < |ns| :: ns[k].id
  }

  /** Shape of a node that any cache would let through. */
  predicate Eligible(n: TextNode)
  {
    !IsBlank(n.value) && !InsideLink(n)
  }

  /** The cache only grows, and by exactly the emitted identities. */
  lemma {:induction false} ScanCache(walk: seq<TextNode>, cache: set<NodeId>)
    ensures Scan(walk, cache).cache == cache + Ids(Scan(walk, cache).nodes)
    decreases |walk|
  {
    if walk != [] {
      var prev := Scan(walk[..|walk| - 1], cache);
      ScanCache(walk[..|walk| - 1], cache);
      var n := walk[|walk| - 1];
      if Admits(n, prev.cache) {
        var ns := prev.nodes + [n];
        assert Ids(ns) == Ids(prev.nodes) + {n.id} by {
          assert forall k :: 0 <= k < |prev.nodes| ==> ns[k] == prev.nodes[k];
          assert ns[|ns| - 1] == n;
        }
      }
    }
  }

  /** Every emitted node was walked, is not blank, is not inside a link and
      was not cached beforehand. */
  lemma {:induction false} ScanSound(walk: seq<TextNode>, cache: set<NodeId>)
    ensures forall n :: n in Scan(walk, cache).nodes ==>
              n in walk && Eligible(n) && n.id !in cache
    decreases |walk|
  {
    if walk != [] {
      var prev := Scan(walk[..|walk| - 1], cache);
      ScanSound(walk[..|walk| - 1], cache);
      ScanCache(walk[..|walk| - 1], cache);
      assert forall n :: n in walk[..|walk| - 1] ==> n in walk;
    }
  }

  /** No identity is emitted twice by one scan. */
  lemma {:induction false} ScanDistinct(walk: seq<TextNode>, cache: set<NodeId>)
    ensures var out := Scan(walk, cache).nodes;
            forall p, q :: 0 <= p < q < |out| ==> out[p].id != out[q].id
    decreases |walk|
  {
    if walk != [] {
      var prev := Scan(walk[..|walk| - 1], cache);
      ScanDistinct(walk[..|walk| - 1], cache);
      ScanCache(walk[..|walk| - 1], cache);
      var n := walk[|walk| - 1];
      if Admits(n, prev.cache) {
        var out := prev.nodes + [n];
        forall p, q | 0 <= p < q < |out| ensures out[p].id != out[q].id {
          if q == |out| - 1 {
            assert out[p] == prev.nodes[p];
            assert out[p].id in Ids(prev.nodes);
          }
        }
      }
    }
  }

  /** Every eligible walked node whose identity was not cached is emitted. */
  lemma {:induction false} ScanComplete(walk: seq<TextNode>, cache: set<NodeId>)
    ensures forall n :: n in walk && Eligible(n) && n.id !in cache ==>
              n.id in Ids(Scan(walk, cache).nodes)
    decreases |walk|
  {
    if walk != [] {
      var init := walk[..|walk| - 1];
      var prev := Scan(init, cache);
      ScanComplete(init, cache);
      ScanCache(init, cache);
      ScanCache(walk, cache);
      var last := walk[|walk| - 1];
      forall n | n in walk && Eligible(n) && n.id !in cache
        ensures n.id in Ids(Scan(walk, cache).nodes)
      {
        if n in init {
          assert n.id in prev.cache;
        } else {
          assert n == last;
        }
      }
    }
  }

  /** Emitted nodes keep the walk's order. */
  lemma {:induction false} ScanOrder(walk: seq<TextNode>, cache: set<NodeId>)
    ensures Subseq(Scan(walk, cache).nodes, walk)
    decreases |walk|
  {
    if walk != [] {
      var init := walk[..|walk| - 1];
      var prev := Scan(init, cache);
      ScanOrder(init, cache);
      var out := Scan(walk, cache).nodes;
      if out != prev.nodes {
        assert out[..|out| - 1] == prev.nodes;
      }
    }
  }

  /** With every eligible identity cached already, nothing is emitted. */
  lemma {:induction false} ScanNothingNew(walk: seq<TextNode>, cache: set<NodeId>)
    requires forall n :: n in walk && Eligible(n) ==> n.id in cache
    ensures Scan(walk, cache) == Extraction([], cache)
    decreases |walk|
  {
    if walk != [] {
      var init := walk[..|walk| - 1];
      assert forall n :: n in init ==> n in walk;
      ScanNothingNew(init, cache);
    }
  }

  /** Scanning the same walk again with the cache the first scan left emits
      nothing. */
  lemma ScanIdempotent(walk: seq<TextNode>, cache: set<NodeId>)
    ensures Scan(walk, Scan(walk, cache).cache).nodes == []
  {
    var after := Scan(walk, cache).cache;
    ScanComplete(walk, cache);
    ScanCache(walk, cache);
    ScanNothingNew(walk, after);
  }

  /** The identity sets emitted by successive extractions: each lies in the
      cache, and no two share an identity. */
  ghost predicate Rounds(rounds: seq<set<NodeId>>, cache: set<NodeId>)
  {
    (forall i :: 0 <= i < |rounds| ==> rounds[i] <= cache) &&
    (forall i, j :: 0 <= i < j < |rounds| ==> rounds[i] !! rounds[j])
  }

  /** One more extraction on the cache the earlier ones left emits only
      identities none of them emitted. */
  lemma ScanRounds(rounds: seq<set<NodeId>>, walk: seq<TextNode>, cache: set<NodeId>)
    requires Rounds(rounds, cache)
    ensures var ex := Scan(walk, cache);
            Rounds(rounds + [Ids(ex.nodes)], ex.cache)
  {
    var ex := Scan(walk, cache);
    ScanCache(walk, cache);
    ScanSound(walk, cache);
    var emitted := Ids(ex.nodes);
    assert emitted !! cache by {
      forall id | id in emitted ensures id !in cache {
        var k :| 0 <= k < |ex.nodes| && ex.nodes[k].id == id;
        assert ex.nodes[k] in ex.nodes;
      }
    }
    var next := rounds + [emitted];
    forall i, j | 0 <= i < j < |next| ensures next[i] !! next[j] {
      assert next[i] == rounds[i];
      if j < |rounds| {
        assert next[j] == rounds[j];
      }
    }
    forall i | 0 <= i < |next| ensures next[i] <= ex.cache {
      if i < |rounds| {
        assert next[i] == rounds[i];
      }
    }
  }

  /** Two scans in a row on one cache never emit the same identity. */
  lemma ScanDisjoint(a: seq<TextNode>, b: seq<TextNode>, cache: set<NodeId>)
    ensures var first := Scan(a, cache);
            Ids(first.nodes) !! Ids(Scan(b, first.cache).nodes)
  {
    var first := Scan(a, cache);
    ScanCache(a, cache);
    ScanSound(b, first.cache);
    var second := Scan(b, first.cache).nodes;
    forall id | id in Ids(second) ensures id !in Ids(first.nodes) {
      var k :| 0 <= k < |second| && second[k].id == id;
      assert second[k] in second;
    }
  }

  /** The walk of the first `e + 1` elements extends that of the first `e`. */
  lemma ConcatStep(walks: seq<seq<TextNode>>, e: nat)
    requires e < |walks|
    ensures Concat(walks[..e + 1]) == Concat(walks[..e]) + walks[e]
  {
    assert walks[..e + 1][..e] == walks[..e];
  }
}
