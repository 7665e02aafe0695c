# desk.js pagination core in Dafny

This project models the page engine of the desk.js in-browser editor. A `Desk` holds an
ordered list of pages and a cursor page number (`onPage`, 1-based). It builds that list at
construction, inserts and deletes pages, and finds pages by id. When a page overflows, it
moves the overflow onto the following page or onto a new page. It builds snapshots of one
page or of the whole document for the host's change callback, and it sums word counts. A
`Page` has an id (`uid`), an ordered list of blocks and a cached word count. The word counter
splits each block's text on single spaces. It counts the pieces that are non-empty and do not
start with the zero-width space U+200B.

Layout:

- `wrappers.dfy`: `Option`, for JavaScript's `undefined`/`null` results.
- `words.dfy` (module `WordCount`): `split(" ")`, its inverse `join(" ")`, and the rule for which pieces count as words.
- `page.dfy` (module `Pages`): the page value, its creation, its element id, block insertion, and the word-count method.
- `snapshot.dfy` (module `Snapshots`): block serialisation, per-page and whole-document snapshots, and the incremental change snapshots.
- `desk.dfy` (module `Desks`): the `Desk` class, whose methods change `pages` and `onPage` in place, plus the lookup, reversal and total functions it uses.

Modelling choices:

- A page is a datatype value. The source mutates a page object through the desk's array (`insertBlock`, `newBlock`, the `clean` hook). The model replaces the page at that position in `pages` instead.
- `Page.wordCount` starts out undefined in `src/Page.ts`, so it is an `Option<nat>`. The desk total is `None` as soon as one page was never counted, matching JavaScript's `0 + undefined`, which is NaN.
- Block contents are the serialised (innerHTML) form. The counter reads the rendered text. In that text the placeholder entity `&#8203;` is the single character U+200B (`Pages.TextOf`). No other HTML decoding is modelled.
- The id generator is a parameter. The constructor gets a function `genUid: nat -> string`. Each operation that builds a page gets a fresh uid.
- The page `clean` hook is a parameter `seq<string> -> seq<string>`. Building a snapshot writes the cleaned blocks back into the page, as the source's cleaning does to the live page.
- `src/Desk.ts` uses page members that `src/Page.ts` does not provide: `id`, `blocks`, `contentWrapper` (declared but never assigned), `insertBlock`, `newBlock`, `getBlock` and `clean`.
  - `id` is identified with the page's `uid`. With `src/Page.ts` as shown, `p.id` is undefined, so every id lookup (src/Desk.ts:54, 188, 230, 269, 330) would compare against `undefined`. The model assumes the evident intent, a lookup by `uid`.
  - `blocks` and `contentWrapper.children` are both read as the page's block sequence.
  - `insertBlock(i, b)` is insertion into the block sequence.
  - `newBlock` appends one placeholder block.
  - `getBlock(i)` is present exactly for `0 <= i < |blocks|`.
- In these places the model follows the code as written:
  - `insertPageAt` returns `false` on rejection and `undefined` (`None`) on success, not `true`.
  - `breakPage` runs no check on empty overflow content.
  - `breakPage` inserts each overflow block at the front of the following page in turn. The overflow therefore ends up reversed: `[x, y]` onto `[z]` gives `[y, x, z]` (`Desks.OverflowOrderReversed`), not `[x, y, z]`.
  - `deletePage` never moves `onPage`, so `onPage` is not kept within `1 .. |pages|`. The desk invariant is only `|pages| >= 1`.
  - `findPageNum` does not separate index 0 from "not found" (see Findings).

## Model

| member | source | states |
|---|---|---|
| `WordCount.Split` | src/Page.ts:94 | a text with n spaces splits into exactly n + 1 pieces, and no piece contains a space |
| `WordCount.JoinSplit` | src/Page.ts:94 | joining the pieces with single spaces gives back the text |
| `WordCount.SplitJoin` | src/Page.ts:94 | splitting the join of space-free pieces gives back those pieces |
| `WordCount.SplitCons` | src/Page.ts:94 | a leading space opens a new empty piece; any other leading character joins the first piece of the rest |
| `WordCount.SplitAtSpace` | src/Page.ts:94 | a space splits the text into two halves that are split independently |
| `WordCount.TokenWords` | src/Page.ts:95-103 | the number of counted pieces is at most the number of pieces |
| `WordCount.TokenWordsAll` | src/Page.ts:97-101 | the count equals the number of pieces exactly when every piece is non-empty and does not start with U+200B |
| `WordCount.TokenWordsNone` | src/Page.ts:97-101 | the count is 0 exactly when no piece qualifies |
| `WordCount.TokenWordsAppend` | src/Page.ts:95-103 | counting adds up over concatenated piece lists |
| `WordCount.TextWords` | src/Page.ts:94-103 | a block's text has at most spaces + 1 words |
| `WordCount.DoubledSpaceNotCounted` | src/Page.ts:94-97 | a doubled space only adds an empty piece and never changes the count |
| `WordCount.CountThreeWords` | src/Page.ts:94-101 | "a b c" counts 3 |
| `WordCount.CountLoneZeroWidthSpace` | src/Page.ts:94-101 | a lone U+200B counts 0 |
| `WordCount.CountDoubledSpace` | src/Page.ts:94-101 | "a  b", with a doubled space, counts 2 |
| `Pages.NewPage` | src/Page.ts:20-31 | a non-empty supplied uid is adopted, otherwise the generator's uid; blocks default to none; the count starts undefined |
| `Pages.DomId` | src/Page.ts:46-48 | the element id is "desk-page-" followed by the uid, and the uid can be read back from it |
| `Pages.DomIdInjective` | src/Page.ts:46-48 | two uids give the same element id exactly when they are equal |
| `Pages.BlockWords` | src/Page.ts:92-103 | a block has at most as many words as space-separated pieces |
| `Pages.SumOverAppend` | src/Page.ts:90-105 | a per-block sum over two runs of blocks adds up over their concatenation |
| `Pages.SumOverBounded` | src/Page.ts:90-105 | a per-block quantity bounded by another sums to no more than the other |
| `Pages.PageWords` | src/Page.ts:89-106 | a page's word count is at most its total number of space-separated pieces |
| `Pages.PageWordsAppend` | src/Page.ts:90-105 | the page count is the sum of the per-block counts |
| `Pages.EmptyBlockWords` | src/Page.ts:92-101 | the empty block and the placeholder block hold no words |
| `Pages.WordlessBlockNotCounted` | src/Page.ts:90-105 | a block without words leaves the page count unchanged wherever it is inserted |
| `Pages.EmptyBlocksNotCounted` | src/Page.ts:93-101 | an empty block or a placeholder block contributes 0 wherever it sits |
| `Pages.PageWordsExamples` | src/Page.ts:89-107 | a page holding only the placeholder counts 0; a page holding "a b c" counts 3 |
| `Pages.CountWords` | src/Page.ts:89-107 | the counting loops store exactly the page's word count and change nothing else on the page |
| `Snapshots.Serialize` | src/Desk.ts:159-166 | the placeholder entity is stored as "", any other block content as itself |
| `Snapshots.SerializeIdempotent` | src/Desk.ts:159-166 | serialising twice is serialising once |
| `Snapshots.CleanAll` | src/Desk.ts:201-202 | every page is cleaned, in place, and the page count is unchanged |
| `Snapshots.CleanAllIdempotent` | src/Desk.ts:201-202 | with an idempotent clean hook, a second save sees the same pages, so it yields the same snapshot |
| `Snapshots.AllBlocks` | src/Desk.ts:215-222 | with no requested indices, the snapshot has exactly the indices 0 .. n-1, each serialised |
| `Snapshots.SelectBlocks` | src/Desk.ts:205-214 | with requested indices, the snapshot has exactly the requested indices still present after cleaning, each serialised |
| `Snapshots.CollectBlocks` | src/Desk.ts:204-222 | the collecting loops build exactly that block map |
| `Snapshots.SnapshotAll` | src/Desk.ts:123-129 | the whole-document snapshot has keys exactly 1 .. number of pages, and key k is built from page k |
| `Snapshots.SnapshotAllSnoc` | src/Desk.ts:123-129 | one more page adds exactly its own snapshot under the next page number |
| `Snapshots.ChangeSnapshots` | src/Desk.ts:340-347 | the incremental snapshot has exactly the changed page numbers that name existing pages |
| `Snapshots.ChangeSnapshotIdentity` | src/Desk.ts:340-347 | every page keeps its id and cached count |
| `Snapshots.ChangeSnapshotUntouched` | src/Desk.ts:340-347 | a page that gets no snapshot is left exactly as it was |
| `Snapshots.MentionedIffChanged` | src/Desk.ts:342-346 | a page number is mentioned at least once exactly when some change names it |
| `Snapshots.ChangeSnapshotCleanCount` | src/Desk.ts:342-346 | each page ends up as its original page cleaned once per change naming it |
| `Snapshots.CleanTimesIdempotent` | src/Desk.ts:201-202 | with an idempotent clean hook, cleaning one or more times is cleaning once |
| `Snapshots.ChangeSnapshotCleanedOnce` | src/Desk.ts:342-346 | with an idempotent clean hook, a page that gets a snapshot is its original page cleaned once, and any other page is unchanged |
| `Snapshots.ChangeSnapshotValue` | src/Desk.ts:343-345 | each entry shows its cleaned page, restricted to the blocks of the last change naming it |
| `Desks.FindIndex` | src/Desk.ts:269 | returns the first position holding the id, or -1 exactly when no page holds it |
| `Desks.Reverse` | src/Desk.ts:238-240 | position i of the result holds the element at position length - 1 - i |
| `Desks.ReverseSnoc` | src/Desk.ts:238-240 | the last element pushed to the front ends up first |
| `Desks.ReversePermutes` | src/Desk.ts:238-240 | the reversed overflow holds exactly the overflow blocks |
| `Desks.OverflowOrderReversed` | src/Desk.ts:238-240 | x, y pushed onto a page holding z leave y, x, z |
| `Desks.TotalWords` | src/Desk.ts:367-371 | the total is defined exactly when every page was counted, and it is at least every page's count |
| `Desks.TotalWordsAppend` | src/Desk.ts:367-371 | the total over two runs of pages is the sum of their totals, and undefined as soon as either is |
| `Desks.TotalWordsSingle` | src/Desk.ts:367-371 | a single page's total is its cached count, so with TotalWordsAppend the total is the sum of the cached counts, fresh or not |
| `Desks.TotalOfFreshCounts` | src/Desk.ts:367-371 | with up-to-date page counts, the total is the document's word count and at most its number of pieces |
| `Desks.Desk.constructor` | src/Desk.ts:31-45 | one page per supplied datum and the given start page; with none supplied, exactly one fresh page and page 1; at least one page either way |
| `Desks.Desk.DeletePage` | src/Desk.ts:53-69 | the first page is never removed and gains one block only if it had none; any other page is removed with order kept; the cursor is untouched; at least one page remains |
| `Desks.Desk.CurrentPage` | src/Desk.ts:141-143 | the page at position onPage - 1, undefined when the cursor is off the document |
| `Desks.Desk.ValidPageNumber` | src/Desk.ts:149-157 | true exactly when 1 <= n <= number of pages; reads state only |
| `Desks.Desk.SnapshotAt` | src/Desk.ts:201-225 | cleans that page and snapshots its id and the selected blocks |
| `Desks.Desk.BuildSnapshot` | src/Desk.ts:175-226 | a number or id that does not resolve gives no snapshot and changes nothing; otherwise that page is cleaned and snapshotted |
| `Desks.Desk.SaveAll` | src/Desk.ts:123-129 | every page is cleaned in place and the snapshot has keys 1 .. n, key k built from cleaned page k |
| `Desks.Desk.Save` | src/Desk.ts:121-139 | save() cleans every page and gives keys 1 .. n; save(n) gives only key n when n is valid and an empty map otherwise |
| `Desks.Desk.PrependOverflow` | src/Desk.ts:236-240 | inserting each overflow block at the front in turn leaves the overflow reversed ahead of the page's own blocks, the page otherwise unchanged |
| `Desks.Desk.BreakPage` | src/Desk.ts:229-250 | with a following page, the page count is unchanged and that page gains the overflow, reversed, ahead of its own blocks; otherwise a page holding exactly the overflow is appended; in both cases onPage = n + 1 and pages n and n + 1 are reported |
| `Desks.Desk.InsertPageAt` | src/Desk.ts:252-266 | outside 0 .. length: false and no change; otherwise the page is at that position, earlier pages are unchanged, later ones shift by one, and the result is undefined |
| `Desks.Desk.FindPageIdx` | src/Desk.ts:268-276 | the first position with a matching id, or none exactly when no page has it |
| `Desks.Desk.FindPageNum` | src/Desk.ts:278-286 | as written: the first matching position + 1, but only for positions after the first; none for an unknown id and for the first page |
| `Desks.FindPageNumMissesFirstPage` | src/Desk.ts:278-286 | for the first page's id, findPageIdx gives 0 while findPageNum gives none |
| `Desks.Desk.FindPageNumber` | src/Desk.ts:278-286 | corrected: the valid page number of the first page with the id, first page included; none exactly when the id is absent |
| `Desks.FindPageNumberRoundTrip` | src/Desk.ts:268-286 | the corrected page number is always the found position plus one |
| `Desks.Desk.SetPageContent` | src/Desk.ts:288-310 | the page gets exactly the given blocks, or the single placeholder when none are given; an unknown id changes nothing |
| `Desks.Desk.InsertNewPageAt` | src/Desk.ts:312-315 | a page built from the data is inserted as insertPageAt inserts it |
| `Desks.Desk.InsertPageBefore` | src/Desk.ts:317-321 | one more page; the new page takes the anchor's position and the anchor moves up by one |
| `Desks.Desk.InsertPageAfter` | src/Desk.ts:323-326 | one more page; the new page sits directly after the anchor |
| `Desks.Desk.SnapshotChanges` | src/Desk.ts:340-346 | the per-change loop leaves exactly the pages and snapshot map of the incremental definition |
| `Desks.Desk.OnChange` | src/Desk.ts:334-352 | with saveOnChange, the whole document is cleaned and saved; otherwise only the changed pages that exist are snapshotted |
| `Desks.BreakPageSnapshotsBoth` | src/Desk.ts:248-249 | a split of a page that has a successor snapshots exactly those two pages |
| `Desks.Desk.UnwrapChange` | src/Desk.ts:329-332 | a page's change event is dispatched under that page's number (0 for an unknown id) |
| `Desks.Desk.WordCount` | src/Desk.ts:360-372 | a page id wins over a page number, a page number selects that page, and with neither the result is the total over all pages |

## Left out

- Rendering and DOM events are left out: `render`, event listeners, the `MutationObserver`, focus, and appending or removing page elements. They are DOM side effects with no effect on the page list.
- The text engine is not part of this model: `Engine` keystroke, paste and mutation handling, `executeAction` and `shortcuts`.
- Configuration merging and the holder-element lookup in the constructor are configuration and DOM. `saveOnChange`, the start page and the initial page data are parameters.
- `Page.CSS`, `renderHolder` and `renderQuill` are styling, DOM construction and a rich-text library call.
- `src/QDesk.ts` and `src/Defaults.ts` are not part of this model. They hold a superseded draft and a table of defaults.
- Id generation (version-4 UUIDs as in section 4.4 of RFC 4122) is an injected parameter. Uniqueness of the generated ids is not modelled.
- The host `onChange` callback is not invoked. The model returns the snapshot that would be passed to it.
- `Desks.Desk.BreakPage`: returns the change list it passes to `onChange` instead of building the snapshot itself. `Desks.Desk.OnChange` models that dispatch. So the model of `breakPage` does not itself run the clean hook on pages n and n + 1, which the source does through `onChange` (src/Desk.ts:249, 344).
- `Desks.Desk.OnChange`: in the source, a changed page number that does not resolve still gets a key whose value is `undefined`. The model leaves that key out.
- `Desks.Desk.DeletePage`: requires the page to be present. For an absent page the source calls `splice(-1, 1)`, which removes the last page. On a one-page desk that removes the only page, so the source then breaks the invariant `|pages| >= 1` that the model's `requires` keeps.
- `Desks.Desk.BreakPage`: requires the page to be present. For an absent page the source treats the first page as the following page.
- `Desks.Desk.InsertPageBefore`: requires the anchor to be present. For an absent anchor the source inserts at position 0.
- `Desks.Desk.InsertPageAfter`: requires the anchor to be present. For an absent anchor the source inserts at position 1.
- `Desks.Desk.WordCount`: requires the selected page to exist. For an unknown id or page number the source throws a TypeError.
- Page numbers and block indices are integers. A fractional JavaScript number, which `validatePageNumber` would accept, is not modelled.
- Block maps passed to `setPageContent` are sequences, so their keys are dense. Sparse integer keys are not modelled.
- The `buildSnapshot` branch for an argument of an unrecognised type is not modelled, because that is a type error.
- Browser string semantics are limited to the placeholder entity. Other innerHTML/textContent encoding differences are not modelled.

## Findings

| source | as written | input that shows it | evidently intended | confidence | as-written member | corrected member |
|---|---|---|---|---|---|---|
| src/Desk.ts:278-286 | `if (foundPageIdx)` treats index 0 as "not found" | the id of the first page: findPageIdx gives 0, findPageNum gives null | page number 1 for the first page, position + 1 whenever the id is present | high, not executed | `Desks.Desk.FindPageNum`, `Desks.FindPageNumMissesFirstPage` | `Desks.Desk.FindPageNumber` |
