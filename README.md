# ChatGPT Navigator: search and highlight, in Dafny

This project models the in-page search of the ChatGPT Navigator browser
extension (`content.js`). A search term typed into the navigation panel
is trimmed. Every earlier highlight is removed. Then every visible text
node of the conversation that contains the term (ignoring case) is cut
into gap text, `<mark class="search-highlight">` wrappers around each
occurrence, and a trailing text node. The wrappers created become the
search results. The panel shows "k of n" and lets the user step forward
and back through the results, wrapping around at either end. Exactly one
wrapper, the current one, carries the `active` class. Clearing the search
turns every wrapper back into plain text and normalizes its parent.

The page is a forest of nodes (`Dom.Node`): text nodes, elements (tag,
attributes, children) and highlight wrappers (text, `active` flag). Each
node carries an identity, which stands for DOM object identity. New
nodes take fresh identities from a counter, the way `createTextNode` and
`createElement` create new objects.

The modules follow the code:

- `Strings`: `toLowerCase` (ASCII), `trim`, `indexOf`, `includes`, and
  the decimal text of a number in a template literal.
- `Dom`: the node forest and what is observed of it: text, identities,
  wrappers in document order, active wrappers. It also holds
  `replaceChild` of a text node, the `active` flag, and
  `Node.normalize()`.
- `Walker`: `shouldSkipNode`, the walker's `acceptNode` filter, and the
  loop that collects every accepted text node before any is rewritten.
- `Splice`: the `while (true)` loop of `highlightInRoot` that cuts one
  text node into a fragment, proved against the list of match offsets
  and the pieces built from them.
- `Highlight`: `highlightInRoot`, the loop over the collected nodes. It is
  proved equal to a simultaneous substitution of every candidate by its
  fragment, and it keeps the page's markup (see `Restore`), so clearing
  after a search gives back the page's markup and text, though not its
  text-node identities or the way its text was cut into nodes.
- `Restore`: `clearHighlights`, proved against the fold of one unwrap
  per listed wrapper. `Dom.Markup` reads a page as element boundaries
  and characters, and clearing is proved to keep it: only the cutting of
  text into nodes changes.
- `Navigator`: the session (`searchResults`, `searchIndex`,
  `currentSearchTerm`, the info line, the controls) as the class
  `SearchPanel`. It holds `searchInConversation`, `scrollToSearchResult`,
  `updateSearchInfo` and the search, next, previous and clear handlers.

## Model

| member | source | states |
|---|---|---|
| Strings.Lower | content.js:249 | lower-casing keeps the length and maps each character by itself, so offsets in the lower-cased text are offsets in the original |
| Strings.LowerIdempotent | content.js:265 | lower-casing an already lower-cased text changes nothing |
| Strings.Trim | content.js:297 | the result is empty exactly when the input is blank; otherwise it neither starts nor ends with whitespace |
| Strings.TrimIsSlice | content.js:297 | `trim` removes only blank margins: the result is a slice of the input with whitespace on either side of it |
| Strings.TrimIdempotent | content.js:297 | trimming twice is trimming once |
| Strings.IndexOfSpec | content.js:270 | `indexOf(q, from)` returns the first occurrence at or after `from`, and -1 exactly when there is none |
| Strings.IncludesIff | content.js:255 | `includes` holds exactly when the query occurs somewhere |
| Strings.Decimal | content.js:345 | the number is rendered as digits without a leading zero whose decimal value is the number |
| Strings.DecimalInjective | content.js:345 | distinct numbers are rendered as distinct texts |
| Walker.ShouldSkipNode | content.js:235-245 | the ancestor loop answers true exactly when some ancestor is `code`, `pre`, `script` or `style` (any case), has `aria-hidden="true"`, or has a `hidden` attribute |
| Walker.AcceptNode | content.js:252-256 | the filter accepts exactly the text nodes whose value is not blank, that no ancestor excludes, and whose lower-cased value includes the query |
| Walker.Filter | content.js:251-257 | the walker yields exactly the accepted runs, in the order visited |
| Walker.Collect | content.js:259-261 | the collection loop gathers the complete candidate list, in pre-order, before any rewrite |
| Walker.CandidatesDistinct | content.js:259-261 | in a document with distinct identities, no candidate is listed twice and each is a node of the document |
| Walker.PreIsSkipped | content.js:239 | text under a `PRE` element is never a candidate, whatever it holds |
| Splice.MatchOffsets | content.js:269-284 | the scan's offsets are increasing and non-overlapping, each the next occurrence at or after the end of the previous one |
| Splice.OffsetsOccur | content.js:270-271 | each offset found is an occurrence of the query in the lower-cased text |
| Splice.SpacedOrdered | content.js:283 | offsets lie within the text, strictly increase, and any two are at least the query's length apart |
| Splice.OffsetsComplete | content.js:269-284 | the scan is greedy: every occurrence overlaps one that was found |
| Splice.OffsetsIncludes | content.js:255 | the scan finds an occurrence exactly when `includes` holds, so the filter's `includes` test and the splice agree |
| Splice.Splice | content.js:263-289 | the loop builds the fragment `Remaining(text, lower, q, 0, next)`; the wrappers it records are the fragment's wrappers in order; one identity is used per node |
| Splice.RemainingIsFragment | content.js:266-287 | what the loop builds is the fragment of pieces (gap text only when `idx > i`, a wrapper per occurrence, the trailing text always), numbered consecutively |
| Splice.FragmentText | content.js:273-287 | round trip: the fragment's text concatenates back to the original node value |
| Splice.FragmentCount | content.js:277-281 | one wrapper per occurrence found; at least one exactly when the lower-cased value includes the query |
| Splice.FragmentHits | content.js:279 | the wrappers hold the slices of the original text at the offsets found, in order |
| Splice.FragmentMatches | content.js:279 | every wrapper's text, lower-cased, is the query |
| Splice.FragmentShape | content.js:287 | the fragment is text nodes and wrappers only, and always ends with the trailing text node |
| Splice.FragmentIds | content.js:267-287 | the fragment's identities are distinct and are exactly the fresh ones from `n` upwards |
| Splice.FragmentActives | content.js:277-278 | no created wrapper is active |
| Splice.SplitText | content.js:264-289 | the pieces of a text concatenate back to the text |
| Splice.SplitHits | content.js:269-284 | the number of hits is the number of offsets the scan finds, and is non-zero exactly when the query is included |
| Splice.NonOverlappingExample | content.js:283 | searching "aa" in "aaaa" finds 0 and 2, not 1 |
| Splice.CaseInsensitiveExample | content.js:265-287 | searching "ha" in "aHA" gives text "a", a wrapper holding "HA" in its original case, and an empty trailing text |
| Highlight.HighlightInRoot | content.js:247-293 | the loop leaves the document in which every candidate is replaced by its fragment; `created` lists the wrappers fragment by fragment; the counter advances by `Used`, one identity per fragment node; identities stay distinct and fresh; active flags and wrapper texts are kept |
| Highlight.Step | content.js:263-290 | one turn of the loop over the collected nodes extends the simultaneous substitution by one more candidate |
| Highlight.StepSubst | content.js:289 | replacing the next candidate in place equals substituting it along with the earlier ones |
| Highlight.StepFresh | content.js:289 | replacing a node by a fresh fragment keeps identities distinct, the active wrappers, and wrapper texts matching |
| Highlight.RewritesCandidates | content.js:251-257 | a text node is rewritten exactly when the filter accepts it; every other node is left alone |
| Highlight.RewrittenMarked | content.js:277-281 | every rewritten node yields at least one wrapper |
| Highlight.RewrittenText | content.js:273-289 | the fragment replacing a node holds that node's value and consists of text nodes and wrappers only |
| Highlight.HighlightText | content.js:247-293 | highlighting never changes the document's text |
| Highlight.SubstMarkup | content.js:289 | replacing text nodes by element-free fragments that spell the same text keeps the markup |
| Highlight.HighlightMarkup | content.js:247-293 | highlighting keeps every element, its attributes and place, and the characters inside each element: each parent's text is what it was |
| Highlight.HighlightMarks | content.js:259-292 | in a document without wrappers, the wrappers afterwards are exactly `created`, in document order |
| Dom.UniqueMarkIds | content.js:226 | with distinct identities, the wrapper list has no repetition |
| Dom.ActivesInMarkIds | content.js:328 | the active wrappers are among the wrappers |
| Dom.NoMarks | content.js:226 | without wrappers no wrapper is active and every wrapper matches any term |
| Dom.ReplaceUnique | content.js:289 | `replaceChild` with fresh nodes keeps identities distinct |
| Dom.FlagsInvisible | content.js:328 | removing `active` changes nothing else observed: text, identities, wrappers, matching |
| Dom.DeactivateInactive | content.js:328 | removing `active` where nobody has it changes nothing |
| Dom.ActivateInvisible | content.js:335 | adding `active` changes nothing else observed |
| Dom.ActivateThenErase | content.js:328-335 | adding `active` and then removing every flag leaves what removing every flag leaves |
| Dom.DeactivateIdempotent | content.js:328 | removing every flag twice is removing it once |
| Dom.ActivateOne | content.js:328-335 | with no active wrapper and distinct identities, activating `m` makes `m` alone active when it is a wrapper |
| Dom.NormalizeText | content.js:231 | `normalize()` keeps the text |
| Dom.NormalizeMarks | content.js:231 | `normalize()` keeps the wrappers and the active flags |
| Dom.NormalizeUnique | content.js:231 | `normalize()` keeps identities distinct |
| Dom.NormalizeIds | content.js:231 | `normalize()` introduces no identity: merged text nodes keep the first one's |
| Dom.NormalizeIsNormal | content.js:231 | after `normalize()`, anywhere in the subtree, no two text nodes are adjacent and no text node is empty |
| Dom.NormalizeFixesNormal | content.js:231 | `normalize()` on a normal forest changes nothing |
| Dom.NormalizeMarkup | content.js:231 | `normalize()` only recuts text: every element, its tag, attributes and place, and the characters between element boundaries stay as they were |
| Dom.FlatMarkup | content.js:231 | a forest without elements, such as a run of adjacent text nodes, reads as the characters of its text |
| Dom.MarkupText | content.js:230 | the markup determines the text: `textContent` is the characters of the markup, so equal markup means equal text in every element |
| Dom.DeactivateMarkup | content.js:328 | removing `active` keeps the markup |
| Dom.ActivateMarkup | content.js:335 | adding `active` keeps the markup |
| Restore.ClearHighlights | content.js:225-233 | the loop leaves `Cleared(doc, next)`: the wrappers listed up front, unwrapped in that order, one fresh identity each; afterwards no wrapper remains and none is active; text and markup (elements, attributes, where each character sits) are unchanged; identities stay distinct and fresh; on a page without wrappers nothing changes, so a second clear is a no-op |
| Restore.ClearAllFacts | content.js:226-232 | unwrapping exactly the listed wrappers one by one leaves no wrapper and none active, keeps the text and the markup, and keeps identities distinct with the new ones fresh |
| Restore.ClearedMarkup | content.js:225-233 | on any page, clearing keeps every element and the place of every character |
| Restore.ClearStep | content.js:227-231 | one turn removes exactly the wrapper at hand from the wrapper list and keeps the text |
| Restore.UnwrapMarkup | content.js:230-231 | replacing a wrapper by a text node holding its text and normalizing the parent keeps every element and the place of every character |
| Restore.UnwrapText | content.js:230-231 | replacing a wrapper by a text node holding its text and normalizing the parent keeps the text |
| Restore.UnwrapMarks | content.js:230-231 | the unwrapped wrapper leaves the list; the others keep their order |
| Restore.UnwrapFresh | content.js:230 | the new text node is the only new identity; identities stay distinct |
| Restore.UnwrapAbsent | content.js:228-231 | a page without the wrapper is not changed |
| Navigator.JsRem | content.js:331 | JavaScript `%` keeps the sign of the dividend, with magnitude below the divisor |
| Navigator.Wrap | content.js:331 | the wrapped position always lies in [0, n) |
| Navigator.WrapIsMod | content.js:331 | the double remainder is the mathematical remainder of the position modulo n, for either sign |
| Navigator.WrapWithin | content.js:331 | a position already in range is kept |
| Navigator.WrapNext | content.js:402 | next from n-1 gives 0, otherwise one on |
| Navigator.WrapPrev | content.js:407 | previous from 0 gives n-1, otherwise one back |
| Navigator.Status | content.js:345 | the "k of n" line starts with a digit |
| Navigator.StatusInjective | content.js:345 | the "k of n" line determines the position and the count |
| Navigator.StatusNotEmpty | content.js:344-348 | the "k of n" line is never "No results" |
| Navigator.Found | content.js:314-315 | after highlighting a cleared page, the results are exactly the wrappers, none active, and the text and markup are unchanged |
| Navigator.SearchThenClear | content.js:295-323 | round trip: clearing the page a search left, with or without a current result, restores the markup and the text of the page searched |
| Navigator.SearchPanel.constructor | content.js:39-40 | the panel starts with no results, no term, "0 of 0" and the controls hidden |
| Navigator.SearchPanel.UpdateInfo | content.js:340-353 | "k of n" with results, "No results" with a term and no results, hidden otherwise; nothing else changes |
| Navigator.SearchPanel.ScrollTo | content.js:325-338 | nothing happens without results; otherwise the position becomes the wrapped index and its wrapper alone is active; text and markup are kept |
| Navigator.SearchPanel.Search | content.js:295-323 | a blank term leaves exactly the cleared page, no results, the controls hidden and the info line as it was; otherwise the page is exactly `Searched`, the trimmed term highlighted in the cleared page, with the first created wrapper made current, and the counter is exactly `SearchedNext`; text and markup are never changed |
| Navigator.SearchPanel.Reset | content.js:298-304 | after a clear: no results, position 0, no term, controls hidden, the info line as it was |
| Navigator.SearchPanel.Show | content.js:315-322 | the created wrappers become the results, the info line is updated, and the first result, if any, becomes current; text and markup are kept |
| Navigator.SearchPanel.Submit | content.js:385-394 | the search button and Enter do exactly what `Search` does for the input box's value: the cleared page when it is blank, otherwise the highlighted cleared page with the first result current and the counter at `SearchedNext` |
| Navigator.SearchPanel.Next | content.js:400-404 | next moves one on, from the last result to the first, keeping exactly one wrapper active; without results the page, the info line and the controls are untouched; the root, the counter and the markup never change |
| Navigator.SearchPanel.Prev | content.js:405-409 | previous moves one back, from the first result to the last, keeping exactly one wrapper active; without results the page, the info line and the controls are untouched; the root, the counter and the markup never change |
| Navigator.SearchPanel.Clear | content.js:410-419 | the clear control empties the input box, leaves exactly the cleared page (unchanged when there was no wrapper), forgets the term, hides the controls and leaves the info line as it was |

## Left out

- The panel's markup, `init`, the toggle handler, and the scroll-to-top and scroll-to-bottom helpers (content.js:7-161, 355-436). These are UI construction and layout.
- `scrollIntoView` (content.js:336): bringing the wrapper into view has no effect the model observes. Its guard `mark && mark.scrollIntoView` always holds for a wrapper element.
- Root discovery (content.js:312-313): the conversation root is fixed for the session. `SearchPanel.doc` is its children and `SearchPanel.above` its ancestor chain. `clearHighlights` queries the whole page, but wrappers are only ever created under the root, so clearing the root's subtree has the same effect.
- The panel is assumed to lie outside the searched root: `info` and `shown` are fields beside `doc`, not nodes in it. When neither the conversation container nor `main` exists, the root falls back to `document.body` (content.js:313), and the panel appended there (content.js:49) is searched too. Its "Top", "Bottom" and "k of n" texts can then be highlighted. A wrapper created inside `#search-info` is destroyed when `updateSearchInfo` overwrites its `textContent` (content.js:345, 348), yet it stays in `searchResults`, detached from the page. The model does not capture that case.
- `waitForChatGPT`, the `MutationObserver` re-initialisation, and timers (content.js:438-472). This is page-lifecycle plumbing.
- `highlightText` and `findChatMessages` (content.js:163-223): they are never called.
- `console.log` diagnostics.
- Unicode case folding: `toLowerCase` is modelled on ASCII, where it keeps lengths. The source slices the original text at offsets found in the lower-cased text, which is only right when lengths are kept.
- The browser's `TreeWalker` and `normalize` are specified by their effect:
  - the walker visits text nodes in pre-order;
  - `normalize` merges adjacent text nodes and drops empty ones.
- `(term || "")`: a term is always a string here; `null` and `undefined` are not modelled.
- Typing into the search box: `SearchPanel.input` is a field the page sets; `Submit` reads it.
- Walker.Runs: the text inside an existing highlight wrapper is not visited. The only caller clears all wrappers before highlighting, so this never makes a difference.
- Highlight.HighlightInRoot: requires a non-empty term. With an empty term the source loops forever, since `indexOf("", i)` is `i`; its only caller passes a trimmed, non-empty term.
- Restore.ClearHighlights: the `if (!parent) return` guard (content.js:229) is not modelled. Wrappers are leaves and unwrapping one never detaches another, so every listed wrapper still has its parent when its turn comes. Pages that remove wrappers themselves are outside the model.
- Navigator.SearchPanel.constructor: requires a page without highlight wrappers, as the extension's own are the only ones it expects.
- Event handlers run one at a time, to completion, as in the browser's event loop; DOM object identity is a number, and garbage collection is not modelled.
