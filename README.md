# Clothing recommender: client state machine and catalog queries

This project models the two halves of a clothing search-and-recommend application.

**The browser client** (`frontend/src/App.js`, module `Frontend`) holds four pieces of state: the query text, the search results, the recommendations and the `loading` flag. Two asynchronous handlers change this state:
- `handleSearch` is guarded by `query.trim()`. It sets `loading`, awaits the search response, replaces the results, clears the recommendations, and clears `loading` in its `finally` block.
- `handleRecommend` sets `loading`, awaits the response, replaces the recommendations, and clears `loading` in its `finally` block.

Each handler is split at its `await` into a dispatch event and a resolve event (success or failure). This lets any interleaving of overlapping requests be written down.

The state exists in two forms:
- `Step` and `Run` are pure transition functions on `AppState` values, over sequences of `Event`s.
- The class `App` holds the same state in fields, plus a multiset `pending` of outstanding requests. Every event method is proved to change the fields exactly as `Step` does.

`View` is the pure display plan: which sections show, their counts, their cards, the rank badges, and the button's state. The button's `disabled` attribute feeds back into `App.ClickSearch`. The Enter-key path (`App.PressKey`) does not look at `disabled`.

**The catalog service** (`backend/app.py`, module `Backend`) provides three helpers:
- `add_image_url` attaches an image locator to each row.
- `search_items` filters rows by a case-insensitive match on the display name.
- `recommend_items` samples up to `n` other rows from the cluster of the first row with the given id.

The catalog is a sequence of `Row`s. Each row already carries the `cluster` label that the clustering pipeline assigns at start-up. A pandas boolean mask `df[mask]` is `Select(df, mask)`. A mask built from a row condition is `Where(df, cond)`.

`sample(m)` returns `m` distinct rows in random order. Its randomness is the parameter `draw`: the caller may pass any rearrangement of the candidate rows (`IsDraw`), and the result is the first `min(n, k)` rows of that draw.

Module `Decimal` renders an id the way a Python f-string renders an `int`. It is proved injective, so distinct ids get distinct image locators. Module `Wrappers` holds `Option`.

Three behaviours of the code are easy to misread:
- **Clearing the recommendations.** The recommendations are cleared when a search *response is applied* (`frontend/src/App.js:18-19`), not when the search is dispatched. Before that response arrives, the old recommendations stay visible (`SearchThenRecommendThenSearch`).
- **The `loading` flag.** `loading` is not equivalent to "some request is outstanding". The model proves only `loading ==> pending != {}` (`App.Valid`). `OverlappingRecommends` shows `loading` false while a request is still outstanding: any single resolution clears it (`LoadingClearedByResolve`).
- **Overlapping responses.** The response that resolves last wins, for each list (`ResultsFromLastSearch`, `RecommendationsFromLastWrite`), whatever order the requests were issued in.

## Model

| member | source | states |
|---|---|---|
| `Frontend.TrimStart` | frontend/src/App.js:14 | the result is a suffix of the input; everything removed is JavaScript whitespace; the result does not start with whitespace |
| `Frontend.TrimEnd` | frontend/src/App.js:14 | the result is a prefix of the input; everything removed is whitespace; the result does not end with whitespace |
| `Frontend.Trim` | frontend/src/App.js:14 | `query.trim()`: no longer than the input, no whitespace at either end, and empty only when every character is whitespace |
| `Frontend.IsBlank` | frontend/src/App.js:14 | the guard `!query.trim()`; `BlankIffAllWhitespace` characterises it |
| `Frontend.BlankIffAllWhitespace` | frontend/src/App.js:14 | the search guard `!query.trim()` holds exactly when every character of the query is whitespace (line terminators included) |
| `Frontend.Step` | frontend/src/App.js:13-33 | the effect of one event: afterwards `loading` holds iff a request was sent or it held before and the event is not a resolution; only an edit (App.js:49) changes the query, only a successful search changes the results, only a successful search or recommend changes the recommendations |
| `Frontend.Run` | frontend/src/App.js:13-33 | the state after a sequence of events; the trace lemmas below characterise it |
| `Frontend.ResultsFromLastSearch` | frontend/src/App.js:13-23 | after any interleaving of events, the results are the data of the last successful search response to resolve; without one, they are unchanged |
| `Frontend.RecommendationsFromLastWrite` | frontend/src/App.js:13-33 | after any interleaving, the recommendations are the data of the last successful recommend, or empty if a successful search resolved after it; without either, they are unchanged |
| `Frontend.QueryFromLastEdit` | frontend/src/App.js:49 | only input edits change the query, and the last edit wins; neither handler touches it |
| `Frontend.LoadingClearedByResolve` | frontend/src/App.js:20-31 | once any response resolves, on success or failure, `loading` is false until the next event that sends a request (a blank search sends none), however many requests are outstanding |
| `Frontend.LoadingSetByDispatch` | frontend/src/App.js:13-27 | after a recommend dispatch, or a search dispatch with a non-blank query, `loading` stays true until some response resolves |
| `Frontend.CardOf` | frontend/src/App.js:74-88 | a result card shows the item's id as key, its image, its display name as alt text and title, its category and `Color: ` followed by its colour; `Cards` and `View` state it per card |
| `Frontend.Badge` | frontend/src/App.js:113 | the badge text is `#` followed by the rank's decimal digits; `BadgesDistinct` shows different ranks give different badges |
| `Frontend.Cards` | frontend/src/App.js:72-91 | one card per result, in order, with the item's image, name, category and colour line |
| `Frontend.RankedCards` | frontend/src/App.js:107-127 | one card per recommendation, in order; card `i` has rank `from + i + 1` and badge `#` followed by that rank |
| `Frontend.View` | frontend/src/App.js:45-130 | the results section shows iff the results are non-empty, with count equal to their length and card `i` showing result `i`; the recommendations section shows iff they are non-empty, with badge `i + 1` on item `i`; the button is disabled and reads "Searching..." iff `loading`; otherwise it reads "Search"; the input shows the query |
| `Frontend.BadgesDistinct` | frontend/src/App.js:113 | different ranks give different badge texts |
| `Frontend.App.constructor` | frontend/src/App.js:6-9 | the initial state: empty query, no results, no recommendations, not loading, nothing outstanding |
| `Frontend.App.SetQuery` | frontend/src/App.js:49 | the change handler sets the query and nothing else |
| `Frontend.App.SearchDispatch` | frontend/src/App.js:13-17 | a blank query sends nothing and changes nothing; otherwise the current query is sent, added to the outstanding requests, and `loading` is set; the lists are untouched at dispatch |
| `Frontend.App.SearchResolveOk` | frontend/src/App.js:17-21 | the response replaces the results wholesale, the recommendations become empty, `loading` becomes false, the query is unchanged |
| `Frontend.App.SearchResolveFail` | frontend/src/App.js:16-22 | with no `catch`, the setters are skipped: only `loading` becomes false; the query and both lists stay as they were |
| `Frontend.App.RecommendDispatch` | frontend/src/App.js:25-28 | the id is sent and `loading` is set, without any guard on `loading`; the query and both lists are untouched |
| `Frontend.App.RecommendResolveOk` | frontend/src/App.js:28-31 | the response replaces the recommendations; the results and the query are unchanged; `loading` becomes false |
| `Frontend.App.RecommendResolveFail` | frontend/src/App.js:27-32 | only `loading` becomes false; the query and both lists stay as they were |
| `Frontend.App.ClickSearch` | frontend/src/App.js:53-57 | a click on the disabled button (while `loading`) does nothing; otherwise it runs the search handler |
| `Frontend.App.PressKey` | frontend/src/App.js:50 | Enter runs the search handler whether or not `loading` is set; other keys do nothing |
| `Frontend.App.ClickResult` | frontend/src/App.js:73-77 | clicking result card `i` dispatches a recommend for that item's id |
| `Frontend.SearchThenRecommendThenSearch` | frontend/src/App.js:13-33 | search, select, search again: `loading` is true while each of the three requests is outstanding and false once it resolves; after the first search the recommendations are empty; selecting leaves the results alone; the old recommendations stay visible until the second search's response is applied |
| `Frontend.SearchTwice` | frontend/src/App.js:18 | two successful searches leave only the second response as the results, not a merge of the two |
| `Frontend.BlankSearchScenario` | frontend/src/App.js:14 | an all-whitespace query sends no request and changes neither list nor `loading` |
| `Frontend.OverlappingRecommends` | frontend/src/App.js:25-33 | with two recommends outstanding, the first resolution clears `loading` while one request is still outstanding, and the response that resolves last is the one displayed |
| `Frontend.EnterBypassesDisabledButton` | frontend/src/App.js:50-56 | while a search is outstanding, a click on the button sends nothing, but Enter sends a second request |
| `Frontend.FailedRecommendScenario` | frontend/src/App.js:27-32 | a failed recommend leaves both lists exactly as they were and ends with `loading` false |
| `Decimal.IntToString` | backend/app.py:56 | the f-string rendering of an id: non-empty, a leading `-` exactly for negative ids, digits otherwise; `IntToStringInjective` makes it injective |
| `Decimal.ParseNatToString` | backend/app.py:56 | the decimal rendering of an id loses nothing: parsing it gives back the same number |
| `Decimal.IntToStringInjective` | backend/app.py:56 | different integers render to different text, including negative ones |
| `Backend.ImageUrl` | backend/app.py:56 | the locator starts with the image route and has the id's decimal rendering after it; `ImageUrlInjective` makes it injective |
| `Backend.ImageUrlInjective` | backend/app.py:56 | two items with different ids never share an image locator |
| `Backend.AddImageUrl` | backend/app.py:53-57 | same rows, same order, same fields, and each record's `image` is the route followed by the row's id |
| `Backend.RowsOfAddImageUrl` | backend/app.py:55-57 | dropping the image column of the copy gives back the input frame exactly |
| `Backend.Lower` | backend/app.py:60 | `case=False`: same length, each character lower-cased (ASCII letters only) |
| `Backend.Contains` | backend/app.py:60 | the substring test: the empty needle always occurs, and a needle longer than the name never does; `ContainsIff` characterises it exactly |
| `Backend.NameMatches` | backend/app.py:60 | `str.contains(query, case=False)`: the lower-cased query occurs in the lower-cased name, as `ContainsIff` states |
| `Backend.ContainsIff` | backend/app.py:60 | the substring test holds exactly when the query occurs at some offset of the name |
| `Backend.MaskOf` | backend/app.py:60 | the boolean column of a condition: one entry per row, entry `i` true exactly when row `i` satisfies it |
| `Backend.Select` | backend/app.py:60 | `df[mask]`: never longer than the frame; `SelectPositions` shows it is exactly the masked rows in order |
| `Backend.SelectPositions` | backend/app.py:60 | `df[mask]` is the rows at exactly the masked positions, in increasing position order |
| `Backend.SelectSubMultiset` | backend/app.py:68-69 | masking never takes a row more often than it occurs in the frame |
| `Backend.SelectAll` | backend/app.py:60 | an all-true mask gives back the whole frame |
| `Backend.SelectMembers` | backend/app.py:68-69 | a row is in `df[cond]` exactly when it is in `df` and satisfies the condition |
| `Backend.SelectCount` | backend/app.py:68-69 | a condition's mask keeps every occurrence of a row that satisfies it and no occurrence of one that does not |
| `Backend.Where` | backend/app.py:68-69 | no longer than the frame; a sub-multiset of it; membership exactly the rows satisfying the condition; each satisfying row occurs as often as in the frame, any other row not at all |
| `Backend.SearchItems` | backend/app.py:59-61 | every returned record is a catalog row whose name contains the query (ignoring case), with its image; every matching catalog row is returned |
| `Backend.SearchItemsInOrder` | backend/app.py:59-61 | the result is the ordered subsequence of the catalog at exactly the positions whose name matches, each with its image |
| `Backend.SearchIgnoresCase` | backend/app.py:60 | queries that differ only in letter case return the same result |
| `Backend.SearchEmptyQueryReturnsAll` | backend/app.py:59-61 | the empty query matches every row, so the whole catalog is returned in order |
| `Backend.FirstIndex` | backend/app.py:64-67 | none iff the id is not in the catalog; otherwise the position of the first row with that id |
| `Backend.Candidates` | backend/app.py:67-69 | empty for an unknown id; otherwise exactly the catalog rows in the first matching row's cluster whose id differs from the queried id, each occurring as often as it occurs in the catalog |
| `Backend.RecommendItems` | backend/app.py:63-75 | empty for an unknown id; size `min(n, k)`, with `k` the number of other-id rows in that cluster (so empty when `k = 0`); `n` defaults to 8; each record carries its image locator |
| `Backend.DrawPrefix` | backend/app.py:74 | the first `m` rows of a draw are distinct occurrences of candidate rows |
| `Backend.RecommendRows` | backend/app.py:74-75 | the returned rows are the first `min(n, k)` rows of the draw, copied by `add_image_url` |
| `Backend.RecommendWithoutReplacement` | backend/app.py:74 | no row is returned more often than it occurs among the candidates or in the catalog |
| `Backend.RecommendSameClusterOtherId` | backend/app.py:67-69 | every returned row is a catalog row in the cluster of the first row with that id, and none has the queried id |
| `Backend.CandidatesQualify` | backend/app.py:68-69 | rows taken from the candidates share the item's cluster and have a different id |
| `Backend.RecommendDefaultBound` | backend/app.py:63 | with the default count, at most 8 items are returned, and exactly 8 when at least 8 candidates exist |
| `Backend.RecommendEmptyIff` | backend/app.py:64-72 | for `n > 0`, the result is empty iff the id is unknown or every row of its cluster has that id |
| `Backend.RecommendDistinct` | backend/app.py:74 | in a catalog with unique ids, the recommended items have pairwise different ids |

## Left out

- HTTP transport: `axios.get`, the request URLs (the query is not URL-encoded), the Flask routes, `jsonify`, CORS and `send_from_directory`. These are I/O. A response is either data or a failure event. The server's records and the client's `Product` are not linked: the JSON encoding between them is not modelled.
- Loading the catalog, `dropna`, and fitting and applying the clustering pipeline. These are file I/O and floating-point numerics. The `cluster` of each row is given data.
- The random number generator behind `sample`. The order of the draw is a parameter; there is no distribution over draws.
- Backend.SearchItems: `str.contains` treats the query as a regular expression by default. The model matches it literally.
- Backend.SearchItems: only ASCII letters are case-folded. Python's full Unicode case folding is not modelled.
- Backend.SearchItems: `na=False` is not modelled, because after `dropna` no display name is missing.
- Parsing the `id` request parameter with `int(...)`, and its failure. The model takes an integer id.
- The shape of `pd.DataFrame()`. The untouched empty frame and an empty filtered frame both serialise to an empty list, and both are `[]` here.
- React rendering mechanics, CSS classes, the `idx * 0.1s` animation delay, and the `onError` fallback image. The fallback is a browser image-load event, not state.
- Backend.RecommendItems: `n` is a natural number. A negative count, which the route never passes, is not modelled.
- The event loop itself is only an interleaving of dispatch and resolve events. The model has no timeouts. A request that never resolves leaves `loading` true until some other request resolves; if nothing else is sent, it stays true.
- The unhandled promise rejection after a failed request. The handler has no `catch`, and the rejection does not reach the state.
