# Paginated post browser: paging, page bar, search and address-bar sync

This project models the logic inside the `App` component of a small React
post browser (`src/App.jsx`). The component shows one page of a remote
collection of posts. The reader can pick 25, 50, 100 or 200 records per
page and move between pages with Prev/Next or a sliding bar of numbered
buttons. A search box sends a debounced search once the query is at least
three UTF-16 code units long. The current page and, while the search text
qualifies, the last query answered are kept in the address bar
(`?page=…&q=…`).

The model has no React and no network. It is built from pure functions and
one event-driven state machine:

- `JsValues`: the JavaScript values involved. A number is `NaN` or an
  integer. The module also gives `trim`, `length` in UTF-16 code units,
  `Number(string)` for the address bar, and `String(number)` for writing
  the page back.
- `Paging`: the page sizes, `Math.ceil(total / limit)`, the record offset
  `(page - 1) * limit`, and the `handlePage` guard.
- `PageBar`: the sliding five-page window and `renderPageNumbers`. The bar
  is modelled as a sequence of `Num(i) | Ellipsis` controls. A second,
  independent definition (`ShownPages` laid out by `Interleave`) serves as
  the reference it is proved equal to.
- `Search`: `isSearch`, `handleSearch`, the list area, the "no results"
  banner and the pagination-visibility condition.
- `AppState`: the component's state and effects as a state machine. The
  address bar is a `map<string, string>`. The events are: the search box
  changing, the debounce timer running out, search and page responses,
  the page controls, and the page-size select.

## Model

| member | source | states |
|---|---|---|
| JsValues.TrimStartSpec | src/App.jsx:129 | trimming the front drops only a leading run of whitespace, and what is left does not start with whitespace |
| JsValues.TrimEndSpec | src/App.jsx:129 | trimming the back drops only a trailing run of whitespace, and what is left does not end with whitespace |
| JsValues.TrimSpec | src/App.jsx:129 | `trim()` keeps exactly the text between a leading and a trailing run of whitespace, leaves no whitespace at either end, and gives "" exactly for blank text |
| JsValues.TrimOfTrimmed | src/App.jsx:36 | text with no whitespace at either end is unchanged by `trim()` |
| JsValues.TrimIdempotent | src/App.jsx:36 | trimming the already-trimmed `searchInput` again for `isSearch` changes nothing |
| JsValues.Utf16LengthBounds | src/App.jsx:36 | JavaScript's `length` counts one or two UTF-16 code units per character |
| JsValues.Utf16LengthAppend | src/App.jsx:36 | the code units of two joined texts add up |
| JsValues.Utf16LengthTrim | src/App.jsx:36 | trimming never makes text longer in code units |
| JsValues.DecimalStringSpec | src/App.jsx:32 | a non-negative page is written to the address bar as a non-empty run of digits with no leading zero that reads back as the number |
| JsValues.NumberToStringSpelling | src/App.jsx:32 | the page written to the address bar is a plain run of digits exactly when it is a non-negative integer; a negative page gets a leading "-" before the digits of its magnitude, and a NaN page is written "NaN" |
| JsValues.ParseBlank | src/App.jsx:12 | a non-empty `page` parameter of whitespace only reads as 0 (an empty one opens page 1, see AppState.InitialPage) |
| JsValues.ParseDigits | src/App.jsx:12 | a `page` parameter of plain digits reads as its decimal value, leading zeros included |
| JsValues.ParseDecimalString | src/App.jsx:12 | the decimal spelling of a non-negative number reads back as that number |
| JsValues.ParseNegative | src/App.jsx:12 | a minus sign before a positive number's spelling reads back as the negative number |
| JsValues.NumberToStringNonEmpty | src/App.jsx:32 | the page written to the address bar is never the empty text |
| JsValues.ParseNumberToString | src/App.jsx:32 | writing any page, NaN included, to the address bar and reading it on the next load gives back the same value |
| Paging.PageSizePositive | src/App.jsx:191-202 | every records-per-page choice is positive |
| Paging.TotalPages | src/App.jsx:25 | the page count is the least count whose pages hold every record: `(n-1)*limit < total <= n*limit`, and 0 for an empty collection |
| Paging.SkipInRange | src/App.jsx:20 | for every page from 1 to the page count, the offset is at least 0 and below the number of records |
| Paging.RecordOnPage | src/App.jsx:20-25 | every record lies within the span of a page that the page count allows |
| Paging.RecordOnOnePage | src/App.jsx:20 | no two pages share a record: two pages whose spans both hold it are the same page |
| Paging.HandlePage | src/App.jsx:64-68 | a NaN request, or one below 1 or past the last page, leaves the page unchanged; an accepted request becomes the page exactly, so the clamp never acts; any change lands in `[1, totalPage]` |
| Paging.HandlePageIdempotent | src/App.jsx:64-68 | repeating the same page request changes nothing more |
| Paging.FiftySevenRecordsScenario | src/App.jsx:25 | 57 records at 25 per page make 3 pages, and a request for page 4 changes nothing |
| PageBar.PageWindow | src/App.jsx:72-76 | the window lies within `[1, totalPage]` and holds at most five pages; it holds exactly `min(5, totalPage)` pages, is `[1, totalPage]` when there are fewer than five, contains the current page when that is in range, and is centred on it away from the ends |
| PageBar.PageWindowExamples | src/App.jsx:72-76 | with 20 pages the window is 1–5 on page 1, 8–12 on page 10 and 16–20 on page 20 |
| PageBar.InterleaveNumbers | src/App.jsx:78-114 | dropping the ellipses from the reference bar gives back its page numbers |
| PageBar.InterleaveMarksGaps | src/App.jsx:78-114 | the reference bar of increasing pages has an ellipsis exactly where neighbouring numbers differ by more than one |
| PageBar.ShownPagesIncreasing | src/App.jsx:72-114 | the pages the bar offers strictly increase and number at most seven |
| PageBar.ShownPagesEnds | src/App.jsx:72-114 | with at least one page, the offered pages run from page 1 to the last page |
| PageBar.ShownPagesMembers | src/App.jsx:72-114 | the offered pages are exactly page 1, the last page and the window |
| PageBar.RenderMatchesReference | src/App.jsx:78-114 | `renderPageNumbers` produces exactly the reference bar of the offered pages |
| PageBar.PageNumbersEnds | src/App.jsx:78-114 | nothing is rendered for a NaN page or zero pages; otherwise the bar starts with button 1 and ends with the last page's button |
| PageBar.PageNumbersOrdered | src/App.jsx:78-114 | the rendered numbers strictly increase (no duplicates), there are at most seven, and each ellipsis sits between two numbers more than one apart, never first, last or next to another ellipsis |
| PageBar.RenderedNumbersAreShownPages | src/App.jsx:78-114 | a page button is rendered if and only if its page is one of the offered pages |
| PageBar.PageNumbersTargets | src/App.jsx:72-114 | a page has a button if and only if it is page 1, the last page or in the window, and the current page always has one when it is in range |
| PageBar.BarButtonAccepted | src/App.jsx:89-99 | every rendered button is for a page `handlePage` accepts, so clicking it lands on that page |
| Search.TrimmedInputIsSearch | src/App.jsx:36 | a keystroke qualifies as a search exactly when its trimmed text is at least three UTF-16 code units long; whitespace alone or text under three code units never does, and three characters always do |
| Search.AstralCharacterCountsTwice | src/App.jsx:36 | an emoji and one letter, two characters, make a search, because the emoji is two code units |
| Search.SampleQueries | src/App.jsx:36 | "abc" and "cats" qualify, "ab" and "" do not |
| Search.NoResultsBanner | src/App.jsx:144 | the "no results" condition is false for every input |
| Search.RenderList | src/App.jsx:150-179 | the list area shows items if and only if the displayed list is non-empty; "not found" if and only if a search has no results; "no posts" only while loading; otherwise nothing |
| Search.PaginationFollowsDisplayedList | src/App.jsx:182 | with the corrected visibility rule, the page controls are shown exactly when the fetched page is the displayed list |
| AppState.InitialPage | src/App.jsx:12 | with no `page` parameter, or an empty one, the view opens on page 1 |
| AppState.ReloadKeepsPage | src/App.jsx:12 | in the model, reloading the address bar of any reachable state opens the same page, NaN included |
| AppState.ReloadSchedulesQuery | src/App.jsx:16 | in the model, reloading the address bar of any reachable state sets `searchInput` to its `q` and schedules a search exactly when there is a `q` |
| AppState.Init | src/App.jsx:12-16 | after the first render: the invariant holds, a fetch is running, a search is scheduled exactly when the initial query qualifies, `q` stays exactly when it qualifies, and other parameters are kept |
| AppState.SearchInputChangedPreservesInv | src/App.jsx:37-55 | a change of the search box keeps the invariant |
| AppState.GoToPagePreservesInv | src/App.jsx:31-34 | a page request keeps the address bar's `page` equal to the page |
| AppState.StepPreservesInv | src/App.jsx:31-55 | every event of the model keeps the invariant: `page` in the address bar spells the page, and every `q`, scheduled search and sent search qualifies (see "Left out" for the captured parameters) |
| AppState.RunPreservesInv | src/App.jsx:31-55 | every state reached from an invariant state keeps the invariant |
| AppState.PendingSearchIsLatestQuery | src/App.jsx:38-40 | in every reachable state, a pending timer belongs to `searchInput` whenever that text qualifies, and any `q` in the address bar qualifies |
| AppState.QualifyingInputReplacesTimer | src/App.jsx:38-40 | a new qualifying text replaces the pending timer with one for itself and leaves the address bar, the sent searches and the results alone |
| AppState.ShortInputKeepsTimer | src/App.jsx:51-54 | a short text removes `q` from the address bar and changes nothing else there, but leaves a pending timer running |
| AppState.DebounceSendsLastQuery | src/App.jsx:37-50 | two qualifying texts typed before the timer runs out send one search, for the second text |
| AppState.ShortInputsNeverSearch | src/App.jsx:51-54 | with no timer pending, any mix of short texts and timer ticks sends no search and leaves the results alone |
| AppState.QueryWrittenOnlyOnSearchOk | src/App.jsx:46-47 | no event other than a search response adds `q` to the address bar or changes it |
| AppState.SearchOkWritesQuery | src/App.jsx:43-47 | in the model, a search response shows its results and writes the query it answered to `q`, leaving `page` alone |
| AppState.PageWrittenOnEveryChange | src/App.jsx:31-34 | the page changes only through the page controls and only to a page in range, and every change is written to `page` and starts a fetch |
| AppState.InvalidPageRequestIsNoOp | src/App.jsx:65 | a NaN, too-small or too-large page request leaves the whole state unchanged |
| AppState.AcceptedPageRequest | src/App.jsx:65-67 | a request for a page in range lands on that page and writes its decimal spelling to `page` |
| AppState.NextThenPrevReturns | src/App.jsx:206-220 | when Next moves off a page of at least 1, Prev brings the view back to it |
| AppState.PrevThenNextReturns | src/App.jsx:206-220 | when Prev moves off a page within the page count, Next brings the view back to it |
| AppState.DisabledButtonsAreRedundant | src/App.jsx:206-220 | Prev and Next behave exactly like page requests for `page - 1` and `page + 1`; their disabled states never change the outcome |
| AppState.BarButtonsNavigate | src/App.jsx:93 | clicking any rendered page button takes the view to that page |
| AppState.LimitChangeKeepsPage | src/App.jsx:189 | choosing a page size keeps the page, the page count and the address bar, and a new size starts a fetch |
| AppState.PageLoadedSetsCount | src/App.jsx:23-28 | a page response replaces the list, ends loading and sets the least page count that holds the collection |
| AppState.LimitChangeStrandsPage | src/App.jsx:189 | on page 10 of 250 records, switching to 200 per page leaves page 10 of 2, whose offset is past the last record |
| AppState.InitialDefaults | src/App.jsx:12-16 | an empty address bar opens on page 1 with an empty `searchInput`, no pending search, and `page=1` written back |
| AppState.DeepLinkScenario | src/App.jsx:12-16 | `?page=3&q=cats` opens on page 3 with "cats" as `searchInput` and scheduled; an input event with empty text then removes `q` and keeps `page=3` |
| AppState.ShortInputShowsPage | src/App.jsx:57-62 | after a keystroke whose trimmed text does not qualify (such as "ab   "), the fetched page is on screen |
| AppState.SearchInputShowsResults | src/App.jsx:57-62 | after a keystroke of a qualifying text, the search results are on screen |
| AppState.PaginationFixedFollowsScreen | src/App.jsx:182 | with the corrected visibility rule, in every state whose fetched page and search results differ, the page controls are shown exactly when the fetched page is on screen |
| AppState.NoResultsBannerNeverShown | src/App.jsx:144 | no state ever shows the "no results" banner |
| AppState.StaleSearchAfterShortInput | src/App.jsx:51-54 | as written: typing "abc" and then "ab" before the timer runs out still sends a search for "abc" |
| AppState.StepFixedDiffersOnlyOnShortInput | src/App.jsx:51-54 | the corrected machine agrees with the code on every event except a changed short text, where it also cancels the pending timer |
| AppState.InitFixedInv | src/App.jsx:12-16 | with the corrected debounce, the first render already has any pending timer on `searchInput` |
| AppState.StepFixedPreservesInv | src/App.jsx:51-54 | with the corrected debounce, every event keeps any pending timer on `searchInput` |
| AppState.RunFixedPreservesInv | src/App.jsx:51-54 | with the corrected debounce, every reachable state keeps any pending timer on `searchInput` |
| AppState.FixedTimerSearchesCurrentInput | src/App.jsx:40-41 | with the corrected debounce, the timer running out sends nothing or a search for `searchInput` when it qualifies |
| AppState.NoStaleSearchWhenFixed | src/App.jsx:51-54 | with the corrected debounce, typing "abc" and then "ab" sends no search |
| AppState.PaginationHiddenOverPagedList | src/App.jsx:182 | as written: after a search for "abc" answers with one post and the box is cleared, the fetched page is displayed but its page controls are hidden |

## Left out

- Network I/O is not modelled: `fetch`, `.json()` and the dummyjson endpoints are replaced by response events (`PageLoaded`, `PageFailed`, `SearchOk`, `SearchFailed`).
- Page responses arriving out of order are not modelled. The code has no guard against stale responses to verify.
- AppState.PageLoadedSetsCount: holds in the model only. The model counts a page response against the page size current when it arrives. In the code, the count divides by the `limit` captured when the request was sent, so a response to a request sent before a size change sets the page count for the old size.
- Search responses complete in the order they were sent.
- The browser's `location` and `history` are left out. The address bar is a map from parameter name to value; URL encoding and parameter order are not modelled.
- The timer callback's snapshot of the parameters is not modelled. In the code, a search response writes back the whole parameter object captured by the render that armed the timer. A page change made while that search is in flight is therefore overwritten with the older page when the response lands, and `page` in the address bar no longer matches the page until the next page change. The model writes `q` into the current address bar, so its invariant that `page` spells the page (AppState.StepPreservesInv) holds in the model only.
- AppState.SearchOkWritesQuery: holds in the model only. The code's response writes back the captured parameter object, whose `page` can be older than the current page (see the line above).
- AppState.ReloadKeepsPage: holds in the model only, for the same reason: after such a write-back the address bar names an older page, and a reload opens that one.
- The search `<input>` has no `value` binding, so it is uncontrolled. A `q` read from the address bar becomes `searchInput` and is searched, but the box on screen stays empty. The records-per-page `<select>` is uncontrolled too. When the page controls reappear after a search with no results, it is mounted again showing 25 whatever `limit` is, and choosing 25 then fires no change. The model tracks `searchInput` and `limit` only, not what the two elements display.
- The page controls are hidden while `filterPosts` is non-empty, but the model accepts page requests, Prev/Next and page-size choices in every state. Properties of those events describe what a click would do, not that the control is on screen.
- React's effect scheduling is simplified. The parameter object is rebuilt on every render and is listed as a dependency, so the search effect re-runs on every render. The model runs it only when `searchInput` changes, with React's bail-out for an unchanged value. Two consequences are not modelled:
  - While a qualifying query stands, each render restarts the timer, so the search repeats about 800 ms after every response.
  - A `q` written for a query `searchInput` no longer qualifies for is removed again on the next render.
- The 800 ms delay is an abstract `TimerFire` event, not wall-clock time.
- JsValues.ParseNumber: only blank text and optionally signed decimal digits read as numbers; every other spelling reads as NaN. `Number()` also accepts decimal points, exponents, `0x`/`0b`/`0o` prefixes and `Infinity`. Several of these denote integers ("2.0", "5.", "1e1", "0x10", "0b11", "0o7"), which the code opens as that page and the model opens as NaN. Fractional pages and `Infinity` are outside the model.
- JsValues.NumberToString: numbers are exact integers, not doubles. Above 2^53 `Number()` rounds, so "9007199254740993" opens page 9007199254740992 and writes that back. From 1e21 on, `String()` switches to exponent notation. The model keeps every digit.
- `toLocaleString` formatting of views and likes is left out (locale library behaviour). So are the markup, CSS classes and interface text.
- The fields of a post are carried but never interpreted.
- `src/Day41/Day-41.jsx` (a two-field form) is not part of this model.
- Paging.TotalPages: there is no floor of one page, so an empty collection has zero pages and every page request is refused.
- AppState.LimitChangeKeepsPage: the page is not clamped on a size change and can exceed the new page count (AppState.LimitChangeStrandsPage).

## Findings

| source | as written | input that shows it | evidently intended | confidence | as-written member | corrected member |
|---|---|---|---|---|---|---|
| src/App.jsx:51-54 | a query that drops below three code units removes `q` but leaves the pending debounce timer armed | type "abc", then "ab", before the timer runs out | a short query sends no search; only `searchInput` as it stands when the timer runs out is searched | not executed; medium | AppState.StaleSearchAfterShortInput | AppState.StepFixedPreservesInv, AppState.FixedTimerSearchesCurrentInput, AppState.NoStaleSearchWhenFixed |
| src/App.jsx:182 | the page controls are shown only while `filterPosts` is empty, and the results of an earlier search are never cleared | search "abc" with one result, then clear the box | the page controls accompany the fetched page, which is shown exactly when the query does not qualify | not executed; medium | AppState.PaginationHiddenOverPagedList | Search.PaginationFollowsDisplayedList, AppState.PaginationFixedFollowsScreen |

The event machine `AppState.Step` follows the code as written, so the
properties above describe the component as it stands. The corrected
debounce `AppState.StepFixed` changes only the short-text branch
(`AppState.StepFixedDiffersOnlyOnShortInput`): on every other event the two
machines take the same step. The behaviour the correction removes is the
one `AppState.ShortInputKeepsTimer` and
`AppState.StaleSearchAfterShortInput` describe; the latter's trace sends no
search under the correction (`AppState.NoStaleSearchWhenFixed`).
