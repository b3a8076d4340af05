# vk-dropdown: a verified model of the search and the dropdown widget

vk-dropdown is a user-picker widget. A text box filters a list of user records. The filter is
tolerant of the wrong keyboard layout (QWERTY typed for ЙЦУКЕН and back) and of Latin spelling
of Cyrillic names. When the local list runs short, the widget pages further records in from a
server that runs the same search and also searches the user's domain.

This project models three pieces of that logic in Dafny and proves properties of the model:

- **Character tables** (`keymap.dfy`, `translit.dfy`).
  - The two keyboard-layout tables `engToRus` and `rusToEng`, and `_switchKeymap`.
  - The transliterators `rusToEng` and `engToRus`. Each walks the parallel tables `arr_ru` and
    `arr_en` (66 entries each) and does one global replace per entry.
- **The four-tier ranked matcher** (`text.dfy`, `matcher.dfy`, `client_search.dfy`,
  `server_search.dfy`).
  - The search derives six queries from the typed one.
  - It sorts every record into the first of four buckets whose test it passes, and drops the
    records that pass none.
  - It returns the buckets concatenated in tier order.
  - The client searches `name + surname`. The server searches `name + surname + domain` and
    wraps the result in a `{totalCount, offset, count, data}` page.
- **The dropdown state machine** (`dropdown.dfy`). `Dropdown.Dropdown` is a class whose fields
  are the widget's state:
  - the records and the filtered list;
  - the selection, keyed by `keyFunction`;
  - the open, loading and not-found flags;
  - the server-search bookkeeping;
  - the menu's scroll offset and the rows currently rendered;
  - the focused row.

  Each public operation and each promise continuation is a method. It returns the
  `remoteDataSource` requests it issues, and states its whole new state.

`util.dfy` holds `Option`, `Min`, `Max` and `Abs`.

Facts the model brings out about the code as written:

- **Dead `engToRus` entries.** Eight entries can never fire: indices 8, 9, 24, 25, 61, 63, 64
  and 65 (`Sh`/`sh`→Щ/щ, `E`/`e`→Ё/ё, the second `` ` ``→ь and `'`→ъ, `E`/`e`→Э/э). An earlier
  entry with the same spelling has already rewritten their pattern away. So `engToRus` never
  produces Щ щ Ё ё ь ъ Э э.
- **Not a round trip.** `rusToEng` followed by `engToRus` does not give back the original
  text: "сх" becomes "sh" and then "ш".
- **Only the first space is removed.** `querydirect` uses `replace(" ", "")`, which drops only
  the first space of the query.
- **Server rows can bring back a selected record.** The continuations merge server rows into
  the lists without filtering out selected keys again (`Dropdown.SelectedRecordReturns`).
- **The catch-up continuation can ask twice.** It renders before it sets
  `serverSearchPerformed`. A render that reaches the end of the list then issues a second
  catch-up request.
- **An empty list still fetches.** `renderMenu` on an empty list calls `tryInfiniteScroll`,
  because `last == -1 == len - 1` (`Dropdown.EmptyListWindowEnd`).
- **The tier-3 guards never matter.** The `!== querydirect` guards of the third test do not
  change any record's tier. A transliteration equal to the direct query only matches records
  the first test has already taken (`Matcher.GuardsNeverChangeTier`).
- **A failed filter fetch stalls paging.** After a failed request `searchQuery` resolves to
  `undefined`. The `runFilter` continuation then throws with `loading` still set, so
  `tryInfiniteScroll` does nothing until a later filter request completes. `runFilter` issues
  its request without looking at `loading`, and that request's continuation clears it.

## Model

| member | source | states |
|---|---|---|
| Text.Lower | client/src/js/search.js:94 | definition: `toLowerCase()` character by character, for ASCII and basic Cyrillic |
| Text.Contains | client/src/js/search.js:94 | definition: `indexOf(q) > -1`, q is a prefix of some suffix of the text |
| Text.RemoveFirstSpace | client/src/js/search.js:8 | definition: `replace(" ", "")` with a string pattern |
| Text.LowerKeeps | client/src/js/search.js:94 | lower-casing keeps the length, maps A-Z to a-z and leaves every character outside the upper-case ranges as it is |
| Text.ContainsAt | client/src/js/search.js:93-95 | `indexOf(q) > -1` holds exactly when q occurs at some offset of the text |
| Text.RemoveFirstSpaceAt | client/src/js/search.js:8 | `replace(" ", "")` cuts out exactly the first space and keeps the rest |
| Text.RemoveFirstSpaceNone | client/src/js/search.js:8 | a query without spaces is left as it is |
| Keymap.EngToRus | server/public/javascripts/dropdown-bundle.js:484-549 | definition: the `engToRus` table as a lookup, `None` for a character that is not a key |
| Keymap.RusToEng | server/public/javascripts/dropdown-bundle.js:551-616 | definition: the `rusToEng` table as a lookup, `None` for a character that is not a key |
| Keymap.SwitchKeymap | client/src/js/search.js:97-103 | the switched text has one character per input character, and characters in neither table are kept |
| Keymap.EngToRusKeysAscii | server/public/javascripts/dropdown-bundle.js:484-549 | every key of `engToRus` is ASCII |
| Keymap.RusToEngKeysCyrillic | server/public/javascripts/dropdown-bundle.js:551-616 | every key of `rusToEng` is Cyrillic |
| Keymap.EngToRusThenRusToEng | server/public/javascripts/dropdown-bundle.js:484-616 | `rusToEng[engToRus[k]] == k` for every key k of `engToRus` |
| Keymap.RusToEngThenEngToRus | server/public/javascripts/dropdown-bundle.js:484-616 | `engToRus[rusToEng[k]] == k` for every key k of `rusToEng` |
| Keymap.KeymapsInverse | server/public/javascripts/dropdown-bundle.js:484-616 | the tables are mutual inverses and their key sets are disjoint |
| Keymap.SwitchCharTwice | server/public/javascripts/dropdown-bundle.js:1094-1100 | switching one character's layout twice gives it back |
| Keymap.SwitchedTwice | server/public/javascripts/dropdown-bundle.js:1094-1100 | switching a whole text twice is the identity |
| Translit.RuEntry | server/public/javascripts/dropdown-bundle.js:1112 | each `arr_ru` entry is a single non-ASCII letter |
| Translit.EnEntry | server/public/javascripts/dropdown-bundle.js:1113 | each `arr_en` entry is one or two ASCII characters |
| Translit.ReplaceAll | server/public/javascripts/dropdown-bundle.js:1117-1118 | definition: a global `replace` of a literal pattern, left to right, without overlap |
| Translit.Run | server/public/javascripts/dropdown-bundle.js:1116-1119 | definition: the table walk from index lo to hi, one global replace per index, in order |
| Translit.ToLatin | server/public/javascripts/dropdown-bundle.js:1114-1121 | definition: the whole `rusToEng` walk over all 66 indices |
| Translit.ToCyrillic | server/public/javascripts/dropdown-bundle.js:1122-1129 | definition: the whole `engToRus` walk over all 66 indices |
| Translit.RusToEng | server/public/javascripts/dropdown-bundle.js:1114-1121 | the loop's result is the in-order fold of global replaces `arr_ru[i]`→`arr_en[i]` |
| Translit.EngToRus | server/public/javascripts/dropdown-bundle.js:1122-1129 | the loop's result is the in-order fold of global replaces `arr_en[i]`→`arr_ru[i]` |
| Translit.ToLatinConcat | server/public/javascripts/dropdown-bundle.js:1114-1121 | `rusToEng` works letter by letter: it distributes over concatenation |
| Translit.ToLatinUnchanged | server/public/javascripts/dropdown-bundle.js:1112-1121 | a text with no `arr_ru` letter is returned unchanged |
| Translit.ToLatinAscii | server/public/javascripts/dropdown-bundle.js:1114-1121 | ASCII text is returned unchanged by `rusToEng` |
| Translit.ToLatinLetter | server/public/javascripts/dropdown-bundle.js:1112-1121 | a letter at its first `arr_ru` index becomes the `arr_en` entry at that index |
| Translit.ToLatinLeavesNoCyrillic | server/public/javascripts/dropdown-bundle.js:1112-1121 | no `arr_ru` letter occurs in the output of `rusToEng` |
| Translit.ToCyrillicUnchanged | server/public/javascripts/dropdown-bundle.js:1122-1129 | text without ASCII characters is returned unchanged by `engToRus` |
| Translit.ShadowedBy | server/public/javascripts/dropdown-bundle.js:1113 | each of the indices 8, 9, 24, 25, 61, 63, 64, 65 has an earlier index with the same Latin spelling |
| Translit.RepeatedStepIsIdentity | server/public/javascripts/dropdown-bundle.js:1122-1129 | an `engToRus` step whose spelling an earlier step already used never changes the text |
| Translit.ShadowedStepIsIdentity | server/public/javascripts/dropdown-bundle.js:1112-1129 | the steps at the eight shadowed indices never fire |
| Translit.CyrillicNeverProduces | server/public/javascripts/dropdown-bundle.js:1122-1129 | no prefix of the `engToRus` walk creates Щ щ Ё ё ь ъ Э э |
| Translit.ToCyrillicOmits | server/public/javascripts/dropdown-bundle.js:1112-1129 | `engToRus` never outputs Щ щ Ё ё ь ъ Э э absent from its input |
| Translit.ToCyrillicLeavesNoSingleLatin | server/public/javascripts/dropdown-bundle.js:1122-1129 | no Latin letter that is a whole `arr_en` entry survives `engToRus` |
| Translit.CyrillicOfSpelling | server/public/javascripts/dropdown-bundle.js:1112-1129 | a spelling that no earlier pattern touches becomes its `arr_ru` letter |
| Translit.ToCyrillicDigraphs | server/public/javascripts/dropdown-bundle.js:1113-1129 | digraphs are consumed first: "Sh" and "sh" become Ш and ш, never С+х |
| Translit.LatinOfEs | server/public/javascripts/dropdown-bundle.js:1112-1121 | с is spelled "s" |
| Translit.LatinOfHa | server/public/javascripts/dropdown-bundle.js:1112-1121 | х is spelled "h" |
| Translit.LatinOfEsHa | server/public/javascripts/dropdown-bundle.js:1112-1121 | "сх" is spelled "sh" |
| Translit.NotARoundTrip | server/public/javascripts/dropdown-bundle.js:1112-1129 | `engToRus(rusToEng("сх"))` is "ш", not "сх" |
| Matcher.DomainText | server/core/search.js:49 | definition: a missing domain is concatenated as the text "undefined" |
| Matcher.Haystack | server/core/search.js:49 | definition: the lower-cased name+surname, plus the domain on the server |
| Matcher.Derive | client/src/js/search.js:8-13 | definition: the six derived queries |
| Matcher.TierOf | client/src/js/search.js:18-29 | definition: the first bucket test a record passes, or none |
| Matcher.DeriveQueries | client/src/js/search.js:8-13 | the six derived queries; the direct one is the query lower-cased with its first space removed |
| Matcher.RankUsers | client/src/js/search.js:18-30 | the bucket loop yields the four buckets concatenated in tier order |
| Matcher.BucketTier | client/src/js/search.js:18-29 | every record of a bucket has that bucket's tier |
| Matcher.BucketPositions | client/src/js/search.js:14-30 | each bucket is the input's records of its tier at increasing positions: input order is kept |
| Matcher.BucketCount | client/src/js/search.js:18-29 | a bucket holds each record of its tier as often as the input does, and no other record |
| Matcher.BucketsPartition | client/src/js/search.js:18-29 | the four buckets and the dropped records add up to the input length: each record lands in exactly one place |
| Matcher.RankedLength | client/src/js/search.js:18-30 | the result is no longer than the input |
| Matcher.RankedCount | client/src/js/search.js:18-30 | a record occurs as often as in the input if it passes a tier test, never otherwise |
| Matcher.RankedMembership | client/src/js/search.js:18-30 | a record is in the result iff it is in the input and passes some tier test |
| Matcher.DroppedIff | client/src/js/search.js:18-29 | an input record is dropped iff it fails every applicable tier test |
| Matcher.DirectIff | client/src/js/search.js:19 | a record is in tier 1 iff its lower-cased name+surname contains the direct query |
| Matcher.GuardsNeverChangeTier | client/src/js/search.js:23-24 | the tier with the `!== querydirect` guards equals the tier without them, for every record |
| Matcher.Concat4Weight | client/src/js/search.js:30 | a position in the concatenation fixes the record's tier |
| Matcher.RankedTierOrder | client/src/js/search.js:30 | the result is sorted by tier: no record precedes one of a better tier |
| Matcher.InactiveQueryKeepsAll | client/src/js/search.js:31-32 | an absent or empty query returns the records unchanged, same order |
| ClientSearch.Search | client/src/js/search.js:3-36 | the client search is the name+surname ranking for an active query and the input otherwise; it is no longer than the input and holds only input records |
| ServerSearch.Slice | server/core/search.js:41 | definition: `slice(begin, end)` with both indices normalised |
| ServerSearch.SliceIndex | server/core/search.js:41 | a normalised `slice` index lies within the array |
| ServerSearch.Search | server/core/search.js:5-44 | the page echoes offset and count, `totalCount` is the full ranked length (the store size for an empty query), data is the slice |
| ServerSearch.SliceWindow | server/core/search.js:41 | for offset, count >= 0, data is `result[min(offset,n)..min(offset+count,n)]` and at most count long |
| ServerSearch.PagesFromIsSuffix | server/core/search.js:41 | pages at offsets o, o+c, ... concatenate to `result[o..]` |
| ServerSearch.PagesCoverResult | server/core/search.js:31-41 | pages at offsets 0, c, 2c, ... concatenate to the whole ranked result |
| Dropdown.Untaken | client/src/js/dropdown.js:69-71 | definition: the `filter` that keeps records whose key is not taken |
| Dropdown.UntakenFree | client/src/js/dropdown.js:69-71 | no record kept by `runFilter`'s filter has a selected key |
| Dropdown.UntakenCount | client/src/js/dropdown.js:69-71 | the filter keeps every record with a free key as often as it occurred, and drops the others |
| Dropdown.UntakenPositions | client/src/js/dropdown.js:69-71 | the kept records are the input's free records in input order |
| Dropdown.UntakenNone | client/src/js/dropdown.js:69-71 | with nothing selected the filter returns the list unchanged |
| Dropdown.Merged | client/src/js/dropdown.js:433-445 | definition: array1, then the records of array2 whose key array1 does not use |
| Dropdown.Merge | client/src/js/dropdown.js:433-445 | the splicing loop returns array1 followed by the records of array2 whose key array1 does not use; array1 is an exact prefix |
| Dropdown.MergedCount | client/src/js/dropdown.js:435-443 | a record of array2 is dropped iff array1 has its key; duplicates within array2 are kept |
| Dropdown.MergedOrder | client/src/js/dropdown.js:433-445 | array1 is a prefix, then the surviving array2 records in their original relative order |
| Dropdown.MergedKeyUnique | client/src/js/dropdown.js:433-445 | the result is key-unique when both inputs are |
| Dropdown.SelectedRecordReturns | client/src/js/dropdown.js:80-81 | a page record with a selected key that the list lacks is merged in: the merged list can hold a selected record |
| Dropdown.MergeIntoEmpty | client/src/js/dropdown.js:434-444 | merging into an empty list returns array2, duplicate keys and all |
| Dropdown.CeilDiv | client/src/js/dropdown.js:118 | `Math.ceil(a/h)` is the least c with a <= h*c |
| Dropdown.RoundDiv | client/src/js/dropdown.js:119 | `Math.round(a/h)` is the c within half a row of a/h, halves rounding up |
| Dropdown.Clamp | client/src/js/dropdown.js:228-229 | the clamped value is x inside [lo, hi], lo below it and hi above it |
| Dropdown.Window | client/src/js/dropdown.js:118-132 | the rendered window lies within the list: `0 <= first` and `last <= len - 1` |
| Dropdown.EmptyListWindowEnd | client/src/js/dropdown.js:132 | on an empty list the window ends at -1, which is `len - 1`, so `renderMenu` tries to load more |
| Dropdown.WindowCoversVisible | client/src/js/dropdown.js:118-136 | every visible row of the list is rendered |
| Dropdown.CeilDivShift | client/src/js/dropdown.js:118 | scrolling k rows up lowers the first visible index by at most k |
| Dropdown.RoundDivShift | client/src/js/dropdown.js:119 | scrolling k rows down raises the last visible index by at most k |
| Dropdown.NeedsRender | client/src/js/dropdown.js:366 | definition: the offset moved more than `itemHeight * max(0, itemsBuffer - 1)`; never before the first render |
| Dropdown.ScrollBandKeepsVisibleRendered | client/src/js/dropdown.js:364-369 | a scroll too small to re-render leaves every visible row among the rows of the last render |
| Dropdown.RowsOf | client/src/js/dropdown.js:136-142 | definition: one row per index of the window, row i at top i*h |
| Dropdown.RowsInList | client/src/js/dropdown.js:131-142 | rendered rows are valid indices of the list in increasing order, row i at top i*h; no rows for an empty list |
| Dropdown.SearchParam | client/src/js/dropdown.js:461 | `filterText \|\| null` is sent as-is exactly when it is present and non-empty |
| Dropdown.FewRows | client/src/js/dropdown.js:74 | definition: `len < offsetHeight / itemHeight + itemsBuffer`, multiplied out by the row height |
| Dropdown.FilterRequest | client/src/js/dropdown.js:74-76 | definition: one first-page request when a filter is set and the rows are few, none otherwise |
| Dropdown.Fetch | client/src/js/dropdown.js:456-479 | nothing while loading; a catch-up for offset 0, count len before a server search; the next page at offset len only if the total is unknown or larger |
| Dropdown.NextPageContiguous | client/src/js/dropdown.js:470-478 | against the server search, a next page extends the list to the first min(k+pageSize, total) records, and another is asked for iff records remain |
| Dropdown.RemoveAt | client/src/js/dropdown.js:259 | `splice(i, 1)` removes exactly index i; the length drops by one and the other rows keep order |
| Dropdown.Dropdown.constructor | client/src/js/dropdown.js:22-45 | defaults: multiselect true, itemHeight 50, itemsBuffer 10, pageSize 200, the `_id` key; empty selection |
| Dropdown.Dropdown.IndexFocus | client/src/js/dropdown.js:227-230 | the focus for a number is the row at the index clamped to [0, len-1] when that row is rendered, otherwise none (any focus is that clamped row); none for an empty list |
| Dropdown.Dropdown.RunFilter | client/src/js/dropdown.js:58-75 | the list is the local result minus selected keys; totalCount null, no server search; a first page is asked for iff the filter is set and rows are few |
| Dropdown.Dropdown.TryInfiniteScroll | client/src/js/dropdown.js:456-479 | issues the request `Fetch` decides on, and is loading afterwards iff it was or a request went out |
| Dropdown.Dropdown.RenderMenu | client/src/js/dropdown.js:113-150 | rows become the window's rows, the render offset is recorded, and more is fetched exactly when the last row is in the window |
| Dropdown.Dropdown.ScrollTo | client/src/js/dropdown.js:211-217 | the offset is the position clamped to [0, offsetHeight] |
| Dropdown.Dropdown.SetFocusedItem | client/src/js/dropdown.js:219-239 | a number focuses the clamped rendered row, a node focuses itself, anything else leaves the focus |
| Dropdown.Dropdown.SetOpen | client/src/js/dropdown.js:186-192 | opening a closed menu refreshes it from the top, with the whole new state and the requests of filtering then rendering; closing or re-setting the flag changes nothing else |
| Dropdown.Dropdown.RefilterFromTop | client/src/js/dropdown.js:395-402 | after opening: filtered list, offset 0, rows of the window, focus on row 0, and the requests of filtering then rendering |
| Dropdown.Dropdown.Update | client/src/js/dropdown.js:47-51 | new records are filtered and rendered, with the whole new state and the requests of filtering then rendering |
| Dropdown.Dropdown.Refilter | client/src/js/dropdown.js:419-420 | filtering then rendering: filtered list, rows of the window, requests of both in order |
| Dropdown.Dropdown.InputChanged | client/src/js/dropdown.js:424-431 | the new filter text, then the refresh from the top: filtered list, offset 0, rows, focus on row 0, loading, and the requests |
| Dropdown.Dropdown.OnScroll | client/src/js/dropdown.js:364-369 | re-renders, with the fetch at the end of the list, iff the offset moved more than `itemHeight * max(0, itemsBuffer - 1)` since the last render |
| Dropdown.Dropdown.SelectAndClose | client/src/js/dropdown.js:255-263 | the single-select reset comes first; the focused record is stored under its key, removed from the list and the menu closes; no focus or a stale index fails |
| Dropdown.Dropdown.Value | client/src/js/dropdown.js:265-268 | all selected records in multi-select mode; otherwise the only one, or none when empty |
| Dropdown.Dropdown.Remove | client/src/js/dropdown.js:414-422 | the key leaves the selection; an open menu is filtered and rendered again, with its flags, rows and requests stated; a closed one is untouched |
| Dropdown.Dropdown.OnUndefinedResponse | client/src/js/dropdown.js:76-78 | an `undefined` answer: the filter continuation marks the search as made and keeps `loading` set; the other two clear `loading` and throw at `response.data`, leaving both lists as they were |
| Dropdown.Dropdown.MergePage | client/src/js/dropdown.js:80-81 | the page is merged into both the records and the filtered list |
| Dropdown.Dropdown.OnFilterResponse | client/src/js/dropdown.js:76-89 | server search done with the reported total; page merged without re-checking the selection; not-found iff the list is empty; render; focus row 0 |
| Dropdown.Dropdown.OnCatchUpResponse | client/src/js/dropdown.js:461-467 | page merged into both lists and rendered, with the render still seeing no server search; server search done afterwards |
| Dropdown.Dropdown.OnNextPageResponse | client/src/js/dropdown.js:472-477 | the page is appended without de-duplication, the total recorded, and the menu rendered |

## Left out

- DOM and templating are not modelled: `itemElementFactory`, `tokenFactory`, `renderButton`,
  `init`, `createDiv`, the event wiring and `updateClass`. A rendered row is its index and top
  offset; the focused row is its `data-index`.
- Keyboard and mouse handlers are not modelled. Besides the modelled operations, the arrow keys
  call `scrollToCurrentItem`, which moves `scrollTop`. The arrow-key double-press guard on
  `focusTimeStamp` depends on wall-clock time.
- `scrollToCurrentItem` is not modelled: it is a keyboard-navigation helper on DOM geometry.
  The model does not capture the scroll offset it sets; `OnScroll` takes whatever offset the
  menu has afterwards.
- Promises are not modelled. Each continuation is a separate method taking the response. Two
  overlapping fetches can complete in either order; that interleaving is not modelled.
- A request whose promise is rejected is a continuation that never runs. `loading` then stays
  set and nothing else changes, so `tryInfiniteScroll` does nothing until a later filter
  request completes.
- Dropdown.Dropdown.constructor: the constructor throws when `config.element` is missing. The
  model has no element, so that error path is not modelled.
- `remoteDataSource` is a call into code outside the widget. The model returns the requests as
  values.
- `searchQuery`, `withQueryParams` and `makeRequest` are not modelled: they are XHR plumbing and
  `encodeURIComponent`.
- Server routing, `parseInt` and NaN defaulting (`server/routes/users.js`) are not modelled.
- `searchExecutionTime` is left out of `ServerSearch.Page`: it is a timing measurement.
- The record store and the user dataset are a parameter of `ServerSearch.Search`: they are
  static data.
- The bundle's copies of the Promise polyfill, of the widget and of the search are not
  modelled; each search and the widget are modelled once, from their own source files.
- Bootstrapping (`app.js`, `dropdown-controller.js`) and build tooling are not modelled.
- `client/dist/dropdown-bundle.js` is not part of this model: it is a superseded prototype.
- Text.Lower: the model lower-cases only ASCII A-Z and the Cyrillic blocks U+0400-U+042F.
  JavaScript's `toLowerCase()` covers all of Unicode; other upper-case letters it would
  lower-case are left as they are in the model.
- The server requires `./keymap` and `./translit`, which are not part of this model. The model
  assumes they hold the same tables as the bundle's `engToRus`/`rusToEng` and
  `arr_ru`/`arr_en`.
- The keymap tables are match-based lookup functions, not map literals. A 64-entry map display
  is beyond what the verifier handles. The entries are the same.
- Dropdown.Window: offsets and heights are integers, and the float divisions are exact integer
  ceiling and rounding. The contract bounds the window and does not restate its formula; the
  lemmas beside it relate it to the visible rows.
- Dropdown.Dropdown.constructor: it requires a non-negative `itemHeight`, so rows have a positive
  height. A negative row height makes the JavaScript window arithmetic meaningless.
- Dropdown.Dropdown.constructor: construction without `config.items` starts with an empty list.
  The JavaScript leaves `items` undefined until `update` is called. Construction with items is
  the constructor followed by `Update`.
- Dropdown.Dropdown.constructor: the local search is bound once, to the client search
  `Dropdown.LocalSearch`. It is a constant field, as `window.VKSearch.searchLocal` is fixed
  after loading.
- Dropdown.Selected: the selection is a map. In the source it is a plain object, so a key such
  as `constructor` or `toString` reads as already selected through `Object.prototype`; the
  model does not capture that.
- Dropdown.Dropdown.Value: in multi-select mode it returns the set of selected records. The
  insertion order of `Object.values` is not modelled.
- Dropdown.Dropdown.RefilterFromTop: `scrollTo(0)` is applied before `runFilter`, not after it.
  The two touch disjoint state, so the resulting state is the same.
- Dropdown.Dropdown.SelectAndClose: the input's blur is modelled as the menu closing. The blur
  event's other effects are DOM focus. `onSelect` is an outside callback and is not modelled.
- Dropdown.Dropdown.SelectAndClose: the throw with no focused row, or with a stale index, is the
  result `ok == false`, with the single-select reset already applied.
- Dropdown.Dropdown.OnScroll: the browser's own clamping of `scrollTop` and the timing of scroll
  events are not modelled. The method takes the offset the browser reports.
- Dropdown.Dropdown.SetOpen: the loading and not-found flags are plain fields. `updateState`'s
  change check only avoids redundant CSS class updates.
