# word-linker: a verified model of the linking engine

word-linker is a browser extension. It scans the posts of a page for phrases close to an entry of a
dictionary of phrases (`settings.words`), and turns each match into a link to `settings.url + phrase`.
This project models the engine in `scripts/linker.js` in Dafny and proves what it guarantees. The
engine has these parts:

- `getWordCountRange` computes the shortest and the longest phrase length, in words. It runs once at
  start-up.
- `isNodeInsideLink` and `extractTextNodes` gather the text nodes to work on. They skip blank nodes,
  nodes already seen (the `WeakSet` cache) and nodes inside an `A` element.
- `processTextNodes` is the matcher. It slides windows over each node's word matches, from longest to
  shortest and left to right, and builds each window's expression. A window is rejected when it starts
  inside an earlier span of the node, or when it holds characters outside `[a-zA-Z0-9_'\- ]`.
  Otherwise it keeps the dictionary phrase at the smallest distance. It accepts that phrase when the
  distance is within `maxDistance`. All of this runs under a page-wide link budget, `linksPerPage`.
- `rebuildNodes` replaces each matched node with a fragment: plain text and links, interleaved.
- `handleLinks` chains the three steps. The link counter and the cache persist between calls on the
  same page.

Modules:

- `WordCount`: the range method and its specification.
- `Extraction`: the node filter, with `Scan` as the reference definition of an extraction.
- `Matching`: the reference definitions `Candidate`, `Windows`, `MatchText` and `Batch`, plus the
  methods that run the source's loops and are proved to compute them.
- `MatchingFacts`: what those definitions guarantee.
- `Rebuild`: fragments as values, with `Splice` as the reference definition of one node's fragment.
- `Linker`: the page session as a class. Its fields are the counter and the cache.
- `Scenarios`: concrete runs on small inputs.
- `Basics` and `Chars`: shared vocabulary. `Chars` covers JavaScript's `\s` and `\w`, `substring`
  with its clamping and swapping, and `join(" ")`.

## Model

| member | source | states |
|---|---|---|
| `WordCount.GetWordCountRange` | scripts/linker.js:4-24 | The result is the range of the dictionary. `min` is infinite exactly when no phrase has a non-whitespace run, and then `max` is 0. Otherwise `1 <= min <= max`, both are reached by some phrase, and every phrase with words lies between them. |
| `Chars.RunCountZeroIffBlank` | scripts/linker.js:11-12 | `value.match(/[^\s]+/g)` finds nothing exactly when the phrase is whitespace only. |
| `Chars.AllLinkCharsIff` | scripts/linker.js:133 | The character filter passes a string exactly when each of its characters is in `[a-zA-Z0-9_'\- ]`. |
| `Chars.RunCountJoin` | scripts/linker.js:11-13 | Words without whitespace, joined by single spaces as the matcher builds its expressions, count as that many words. |
| `Extraction.IsNodeInsideLink` | scripts/linker.js:33-49 | The answer is true exactly when the element is an `A` or some element of its parent chain is. |
| `Extraction.ScanCache` | scripts/linker.js:75-76 | The cache after an extraction is the old cache plus exactly the identities of the emitted nodes. |
| `Extraction.ScanSound` | scripts/linker.js:64-74 | Every emitted node was walked, is not blank, is not inside a link, and was not in the cache beforehand. |
| `Extraction.ScanComplete` | scripts/linker.js:62-76 | Every walked node that is not blank, not inside a link and not cached is emitted. |
| `Extraction.ScanDistinct` | scripts/linker.js:68-76 | No node identity is emitted twice in one extraction. |
| `Extraction.ScanOrder` | scripts/linker.js:54-77 | Emitted nodes keep the order of the walk. |
| `Extraction.ScanNothingNew` | scripts/linker.js:64-74 | When every eligible node is already cached, nothing is emitted and the cache is unchanged. |
| `Extraction.ScanIdempotent` | scripts/linker.js:68-76 | Extracting the same elements again with the cache the first run left emits nothing. |
| `Extraction.ScanDisjoint` | scripts/linker.js:26 | Two extractions in a row over one cache never emit the same node identity. |
| `Extraction.ScanRounds` | scripts/linker.js:26 | With the cache the earlier extractions of the page left, a further extraction emits only identities that none of them emitted. The cache still holds every emitted identity. |
| `Matching.WindowExpression` | scripts/linker.js:111-115 | The loop builds the window's expression: words `j .. j+i-1` joined by single spaces. |
| `Matching.CheckOverlap` | scripts/linker.js:119-130 | The result is true exactly when the start lies in `[start, end]` of some earlier span, both ends included. |
| `Matching.ClosestWord` | scripts/linker.js:137-145 | The loop computes the running minimum that `Closest` defines. |
| `Matching.MatchNode` | scripts/linker.js:86-159 | The nested window loops and the sort return `MatchText`'s spans, counter and budget flag, including the early return with sorted results when the budget runs out. |
| `Matching.InsertByStart` | scripts/linker.js:154 | Inserting into a list sorted by start keeps it sorted and adds exactly the new span, as a multiset. |
| `Matching.SortByStart` | scripts/linker.js:104 | The sorted spans are ordered by start and are a permutation of the input. |
| `MatchingFacts.ClosestIsFirstMinimum` | scripts/linker.js:137-145 | With no phrases the distance stays infinite and the item is `""`. Otherwise the item is the first phrase at minimum distance, and the distance is its distance. |
| `MatchingFacts.ExpressionEnd` | scripts/linker.js:111-116 | For well-formed word matches, `start + expression.length` never passes the end of the window's last match. The expression is at least as long as its first word. |
| `MatchingFacts.AcceptedInBounds` | scripts/linker.js:111-150 | For well-formed word matches, an accepted span satisfies `start < end <= text.length`. It starts at a match and ends within its window. Every character of its text is in `[a-zA-Z0-9_'\- ]`. |
| `MatchingFacts.WindowsGrowth` | scripts/linker.js:147-149 | The window loops only append spans, and each span raises the counter by one. |
| `MatchingFacts.WindowsBudget` | scripts/linker.js:100-109 | A counter within the budget stays within it. A spent budget adds nothing and leaves the counter unchanged. The loops stop early only on a spent budget. |
| `MatchingFacts.WindowsSound` | scripts/linker.js:111-150 | Every span added is accepted for its window: it has the right start and length, passes the character filter, and names the closest phrase within `maxDistance`. |
| `MatchingFacts.WindowsOrder` | scripts/linker.js:99-150 | Each span the loops add comes with the window that produced it, and is accepted for that window. The windows follow the loop order: longer windows first, then left to right within one length. None comes before the loops' starting point. |
| `MatchingFacts.WindowsGuard` | scripts/linker.js:119-130 | In acceptance order, no span starts inside `[start, end]` of an earlier span of the same node. |
| `MatchingFacts.SortStrict` | scripts/linker.js:154 | Spans with pairwise different starts sort into strictly increasing starts. |
| `MatchingFacts.GuardedDistinct` | scripts/linker.js:119-130 | Spans that pass the start guard have pairwise different starts. |
| `MatchingFacts.MatchTextFacts` | scripts/linker.js:86-158 | One node's spans are each accepted for its own word matches and strictly increase by start. The counter grows by their number, and the budget bounds hold. |
| `MatchingFacts.ShortNodeSkipped` | scripts/linker.js:91-94 | A node with fewer word matches than `minNodeWordCount` yields nothing and leaves the counter alone. |
| `MatchingFacts.NoPhrasesNoSpans` | scripts/linker.js:99-100 | When no phrase of the dictionary has a word, the minimum length is `Infinity`, so no window is tried: a node yields no span and the counter is unchanged. |
| `MatchingFacts.NoPhrasesNoEntries` | scripts/linker.js:82-162 | With such a dictionary a whole batch produces no entry and leaves the counter unchanged. |
| `MatchingFacts.BatchBudget` | scripts/linker.js:103-109 | Over a batch, the counter grows by the total number of spans and stays within a budget it started within. A spent budget produces nothing, and a batch is cut short only when the budget is spent. |
| `MatchingFacts.BatchEntries` | scripts/linker.js:154-158 | Every entry is a node of the batch with at least one span. Its spans are strictly sorted and each is accepted for that node. |
| `MatchingFacts.BatchOrder` | scripts/linker.js:86-158 | Entries come in the order of their nodes. |
| `MatchingFacts.BatchAppend` | scripts/linker.js:103-109 | A batch over `a + b` is the batch over `a` followed, unless `a` spent the budget, by the batch over `b` with the counter `a` left. Once the budget is spent, no later node is examined. |
| `Rebuild.BuildFragment` | scripts/linker.js:176-198 | The loop over the sorted spans builds exactly the `Splice` fragment of the node. |
| `Rebuild.RebuildNodes` | scripts/linker.js:164-204 | The replacements are exactly those of the attached entries, in order. |
| `Rebuild.SplicePreservesText` | scripts/linker.js:176-198 | When the spans lie in the text and do not overlap, the fragments' texts put together are the original text. |
| `Rebuild.SpliceLinks` | scripts/linker.js:183-185 | There is one link per span, in span order. Each link's `href` is `settings.url + item`, and its text is `text.substring(start, end)`. |
| `Rebuild.ReplacementsOfAttached` | scripts/linker.js:165-169 | Every replacement comes from an attached entry, and every attached entry gets its replacement. |
| `Linker.Session.constructor` | scripts/linker.js:26-31 | At start-up the range is the dictionary's, the counter is 0 and the cache is empty. |
| `Linker.Session.Extract` | scripts/linker.js:51-80 | The emitted nodes and the new cache are exactly what `Scan` defines for the elements' walks, in order, from the old cache. The call's emitted identities are recorded, and the session invariant keeps every pair of extractions of the page disjoint. |
| `Linker.Session.Process` | scripts/linker.js:82-162 | The entries and the new counter are exactly what `Batch` defines from the old counter. The session invariant is kept: the counter is the page's total number of links and never exceeds a non-negative budget. |
| `Linker.Session.Record` | scripts/linker.js:149 | Storing a batch's counter and entries keeps the session invariant, given that the counter grew by the batch's spans and stays within the budget. |
| `Linker.RunBatch` | scripts/linker.js:86-161 | The loop over the nodes, with the counter shared by all, returns exactly `Batch`'s entries and final counter, including the early return when the budget runs out. |
| `Linker.Session.HandleLinks` | scripts/linker.js:206-210 | Extraction, then matching, then rebuilding. The new cache, the counter and the replacements are those of the composed reference definitions. No node is handed on by two calls on the same page. |
| `Linker.ProcessStep` | scripts/linker.js:86-109 | One node of the batch: its entry, if any, and then, unless the budget ran out, the rest of the batch. The counter grows by the node's spans. |
| `Scenarios.OverlapAdmitted` | scripts/linker.js:119-130 | With dictionary `["b c d", "a b"]` and text `"a b c d"`, both phrases are linked, as `[0, 3)` and `[2, 7)`. The first span of the result ends after the second starts. |
| `Scenarios.OverlapRebuilt` | scripts/linker.js:176-198 | Rebuilding that node with those two spans gives the visible text `"a bb c d"`: the shared `"b"` appears twice. |
| `Scenarios.HelloExact` | scripts/linker.js:97-158 | With dictionary `["hello world"]` and threshold 0, `"say hello world today"` yields exactly one span, over `"hello world"`. |
| `Scenarios.HelloRebuilt` | scripts/linker.js:176-198 | That node becomes `"say "`, then a link to `url + "hello world"`, then `" today"`. |
| `Scenarios.HelloApproximate` | scripts/linker.js:137-149 | With threshold 2, `"say helo wrld today"` yields one span over `"helo wrld"`, linked to `"hello world"`. |
| `Scenarios.FoxRange` | scripts/linker.js:4-24 | The dictionary `["quick fox", "fox"]` has window lengths one to two. |
| `Scenarios.LongestFirst` | scripts/linker.js:99-150 | With that dictionary and threshold 0, `"the quick fox jumps"` yields exactly one span, over `"quick fox"`. The two-word window is tried first, so `"fox"` inside it is never linked. |
| `Scenarios.BudgetOfOne` | scripts/linker.js:103-109 | With a budget of one link, the first node's link ends the batch. The second node gets no entry, whatever it holds. |

## Left out

- The settings fetch and its JSON parsing, the site lookup by host name, `querySelectorAll` and the
  `MutationObserver` are I/O and browser events. A session is given its settings. Each `HandleLinks`
  call is given the text nodes of the posts it is called on.
- The `TreeWalker` walk is not modelled. Each element is given as the sequence of its text nodes in
  document order. Each node carries its identity, its `nodeValue`, the `tagName`s of its parent
  chain, and whether it still has a parent.
- DOM creation and `replaceChild` are left out. A rebuilt node is a `Replacement` value: the node's
  identity and its fragment list. The second `parentNode` test at line 200 repeats the one at
  line 167, since nothing runs in between, so it is not modelled separately.
- Link colouring (`site.color`) is styling only and is left out.
- The `distance` function, `toLowerCase` and the word tokeniser `/\b[\w'-.]+\b/g` are parameters
  (`Primitives`). Their code is not part of this model. Properties that need the tokeniser's shape
  assume `WellTokenized`: its matches are non-empty, in order, separated, and are the text at their
  offsets.
- Strings are sequences of Unicode characters. JavaScript's UTF-16 surrogate pairs and Unicode case
  mapping are not modelled.
- JavaScript numbers are modelled as unbounded integers. The counter cannot overflow in any realistic
  run.
- `Linker.Session.Process`: the source raises the page counter inside the loop. The model runs the loop on a local counter (`Linker.RunBatch`) and stores it at the end. Nothing can observe the counter in between, so the final state is the same.
- `results.sort` is the engine's built-in stable sort. It is modelled as a stable insertion sort,
  which gives the same result for a stable sort.
- Pairwise non-overlap of a node's spans is not claimed, because the source only checks whether a
  candidate's start falls inside an earlier span. `Scenarios.OverlapAdmitted` shows two accepted
  spans that overlap. `MatchingFacts.WindowsGuard` states the guarantee the code does give. Text
  preservation on rebuild is proved for spans that do not overlap. With overlapping spans the
  program shows the shared text twice, as `Scenarios.OverlapRebuilt` proves for `"a b c d"`.
