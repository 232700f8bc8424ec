# ShowFinder result view and favorites, in Dafny

ShowFinder is a single-page TV-show browser (`script.js`). The page searches
the TVMaze catalog or loads a "trending" page. It keeps the answer as the full
result list. Three controls narrow and order that list: a genre select, a
minimum-rating slider and a sort select. The page then shows the view twelve
cards at a time behind a "load more" button. Any show can be starred, and the
starred list is kept under one localStorage key.

This project models that core.

- `wrappers.dfy`, module `Wrappers`: the `Option` type. It stands for JavaScript's
  `?.` / `??` on absent values.
- `seqs.dfy`, module `Seqs`: the array built-ins the page relies on, as
  functions on sequences.
  - `Array.prototype.filter` is `Filter`.
  - `slice(0, n)` is `Take`.
  - `Array.prototype.sort` is `SortBy`, an insertion sort by a "may come first" relation.
  - The lemmas say what each of these keeps: contents, multiplicities, order.
- `shows.dfy`, module `Shows`: the pure part of the pipeline.
  - The show record, `yearOf` and `ratingOf`.
  - The five sort keys of `sortShows`.
  - The genre and minimum-rating filters of `applyFiltersAndRender`.
  - The trending selection.
  - The genre set and option list of `buildGenreOptions`.
  - The `find` by id of the favorite button.
- `favorites.dfy`, module `Favorites`: the favorites store.
  - The list operations `some`, `findIndex` + `splice`/`push` and remove-by-id `filter`, as functions with lemmas.
  - The class `FavoriteStore`, whose `slot` field is what the localStorage key holds.
  - Its methods are `getFavorites`, `setFavorites`, `isFav`, `toggleFav` and the favorites tab's remove.
- `view.dfy`, module `ResultView`: the module-level state and the handlers that change it.
  - The class `ViewState` holds `lastQuery`, `allResults`, `viewResults` and `visibleCount`, plus the values of the three controls.
  - Its invariant is that the view is always the pipeline applied to the full list under the current controls.
  - The cursor is always a whole number of twelve-card pages.
  - `RenderGrid` is what `renderGrid` draws: the cards of `slice(0, visibleCount)`, each badged iff it is a favorite, and whether load-more is visible.

Ratings are integers in tenths (8.5 is 85), and the rating slider is an
integer on the same scale. A premiere date is reduced to its optional year.
Names are ordered by code-point lexicographic order.

## Model

| member | source | states |
|---|---|---|
| `Favorites.FavoriteStore.constructor` | script.js:87 | the store starts with whatever the favorites key holds |
| `Favorites.FavoriteStore.Favorites` | script.js:89-92 | a missing, null or unparseable value reads as the empty list; a saved list reads back as itself |
| `Favorites.FavoriteStore.SetFavorites` | script.js:94-96 | the key then holds exactly the given list, and reading it back gives that list |
| `Favorites.HasId` | script.js:99 | true iff some entry of the list has the id |
| `Favorites.FavoriteStore.IsFav` | script.js:98-100 | true iff some stored entry has the id |
| `Favorites.FindIndex` | script.js:104 | the first position holding the id (no earlier entry has it), or -1 exactly when no entry has it |
| `Favorites.Toggled` | script.js:102-121 | the written-back list is one shorter when the id was present and one longer when it was absent |
| `Favorites.ToggleRemovesFirstMatch` | script.js:104-108 | when the id first occurs at position i, the new list is the old one with exactly position i cut out, the rest in order |
| `Favorites.Project` | script.js:111-117 | definition of the appended entry; properties in `Favorites.ToggleAppendsProjection` |
| `Favorites.ToggleAppendsProjection` | script.js:110-118 | when the id is absent, the earlier entries are unchanged and one entry is appended. It has the show's id and name, its poster or "", and its rating and premiere or nothing |
| `Favorites.ToggleKeepsIdsUnique` | script.js:102-121 | toggling keeps the ids of the list unique |
| `Favorites.ToggleOffRemovesId` | script.js:104-108 | with unique ids, toggling a present id leaves no entry with that id |
| `Favorites.ToggleFlipsMembership` | script.js:102-121 | with unique ids, the id is in the new list iff it was not in the old one |
| `Favorites.ToggleTwiceRestores` | script.js:102-121 | toggling a show that is not a favorite twice gives back the original list |
| `Favorites.FavoriteStore.ToggleFav` | script.js:102-121 | the stored list becomes the toggled list. `added` is true iff the id was absent. Unique ids stay unique, and then the id is stored iff it was added |
| `Favorites.WithoutId` | script.js:466 | the result is a subsequence of the list. It keeps every entry with another id as often as before, drops every entry with the id, and has no entry with the id |
| `Favorites.RemoveAbsentIdUnchanged` | script.js:466 | removing an id that is not present leaves the list unchanged |
| `Favorites.RemoveKeepsIdsUnique` | script.js:466 | removing by id keeps ids unique |
| `Favorites.RemoveAgreesWithToggle` | script.js:466 | with unique ids, removing a present id from the favorites tab gives the same list as toggling that show off |
| `Favorites.FavoriteStore.RemoveFavorite` | script.js:465-469 | the stored list becomes the list without the id. An absent id leaves it unchanged, and unique ids stay unique |
| `Seqs.Filter` | script.js:286-288 | definition of `Array.prototype.filter`; properties in `Seqs.FilterSpec` |
| `Seqs.FilterSpec` | script.js:286-288 | `filter` keeps exactly the elements passing the test, in their original order (a subsequence) and with their multiplicities |
| `Seqs.FilterKeepsAll` | script.js:287 | a filter every element passes returns the sequence unchanged |
| `Seqs.FilterDropsAt` | script.js:466 | a filter that only position i fails is the same as cutting out position i |
| `Seqs.Take` | script.js:297 | `slice(0, n)` is a prefix of length min(n, length) |
| `Seqs.SortBy` | script.js:193-197 | sorting a copy keeps its length and its multiset of elements |
| `Seqs.SortBySorted` | script.js:193-197 | under a total preorder the sorted copy is ordered at every pair of positions |
| `Shows.YearOf` | script.js:164-166 | definition: the premiere year, -1 when missing; properties in `Shows.YearSortsOrder` |
| `Shows.RatingOf` | script.js:168-170 | definition: the rating, -1.0 (-10 tenths) when missing; properties in `Shows.RatingSortsOrder` |
| `Shows.LexLeqIsTotalPreorder` | script.js:197 | the name order is total and transitive, so `name_asc` has a well-defined order |
| `Shows.SortKeyOf` | script.js:192-198 | a recognised key is the one whose select value was given; `Unrecognised` is returned exactly when the value is none of the five |
| `Shows.SortShows` | script.js:190-200 | definition; properties in `Shows.SortShowsSorts` |
| `Shows.SortShowsSorts` | script.js:190-200 | the sorted copy is a permutation of the input. Each key orders it by its field: rating or year descending or ascending, with a missing rating counting as -1.0 (-10 tenths) and a missing year as -1, or name. Any other key returns the input order |
| `Shows.RatingSortsOrder` | script.js:193-194 | `rating_desc` gives non-increasing `ratingOf`, `rating_asc` non-decreasing, a missing rating counting as -1.0 (-10 tenths) |
| `Shows.YearSortsOrder` | script.js:195-196 | `year_desc` gives non-increasing `yearOf`, `year_asc` non-decreasing |
| `Shows.NameSortsOrder` | script.js:197 | `name_asc` gives names in non-decreasing order |
| `Shows.ByGenre` | script.js:287 | definition of the genre filter; properties in `Shows.FilterShowsKeeps` and `Shows.EmptyGenreKeepsAll` |
| `Shows.FilterShows` | script.js:286-288 | definition of both filters; properties in `Shows.FilterShowsKeeps` |
| `Shows.FilterShowsKeeps` | script.js:286-288 | the two filters give a subsequence of the full list. It holds each record that has the genre (or when no genre is chosen) and is rated at least the threshold, counting a missing rating as 0, as often as the full list does, and nothing else |
| `Shows.EmptyGenreKeepsAll` | script.js:287 | with no genre selected the genre filter keeps every record |
| `Shows.ZeroMinRatingDropsNothing` | script.js:288 | with threshold 0 and no negative rating, the rating filter drops nothing |
| `Shows.AbsentGenreYieldsNothing` | script.js:287 | selecting a genre no record lists leaves an empty view |
| `Shows.ViewOf` | script.js:286-290 | definition of the view; properties in `Shows.ViewContents` |
| `Shows.ViewContents` | script.js:286-290 | the view holds exactly the records passing both filters, as often as the full list, and nothing else. Without a recognised sort key it keeps the full list's order |
| `Shows.Trending` | script.js:220-224 | definition of the trending selection; properties in `Shows.TrendingSelection` and `Shows.TrendingKeepsHighestRated` |
| `Shows.TrendingSelection` | script.js:220-224 | the trending list is drawn from the answer and every show in it has a poster. It is best rated first and has 60 shows unless fewer have a poster |
| `Shows.TrendingKeepsHighestRated` | script.js:220-224 | a show with a poster that missed the cap is rated no higher than any show that made it |
| `Shows.CollectGenres` | script.js:173-174 | the genre set holds every genre of every record and nothing else, each once |
| `Shows.GenreOptions` | script.js:177-178 | the options are "" followed by the collected genres, each as often, in string order |
| `Shows.FindById` | script.js:338 | `find` returns the first record with the id, and nothing exactly when no record has it |
| `ResultView.RenderGrid` | script.js:296-327 | one card per show of `slice(0, visibleCount)`, in view order, each badged iff its id is a favorite; load-more is visible iff the view is longer than the cursor |
| `ResultView.RenderedCardIsFound` | script.js:338 | every card's id is found in the full list, so the fallback lookup in the view is never needed |
| `ResultView.LoadMoreExtendsGrid` | script.js:139-142 | another page keeps the drawn cards as a prefix; once load-more is hidden it draws the same grid |
| `ResultView.ViewState.constructor` | script.js:81-84 | empty lists, empty query, a twelve-card cursor and the controls' initial values, with the view current |
| `ResultView.ViewState.ResetCursor` | script.js:292 | the cursor goes back to one page of twelve |
| `ResultView.ViewState.NextPage` | script.js:140 | the cursor grows by twelve and stays a whole number of pages |
| `ResultView.ViewState.StartRequest` | script.js:252-253 | a request records its query and resets the cursor, and the view stays current |
| `ResultView.ViewState.ApplyFiltersAndRender` | script.js:281-294 | the view is recomputed from the full list and the controls, the cursor is reset to twelve, and the first page is drawn |
| `ResultView.ViewState.ChangeControls` | script.js:129-135 | a change of any control stores the new values and re-filters, resetting the cursor |
| `ResultView.ViewState.LoadMore` | script.js:139-142 | the cursor grows by twelve, nothing else changes, and the grid is redrawn from the same view |
| `ResultView.ViewState.BuildGenreOptions` | script.js:172-188 | the options are "" and then every genre of the shows once each, in string order. The selected genre is kept iff it is still offered, otherwise it becomes "" |
| `ResultView.ViewState.TakeResults` | script.js:269-270 | an answer becomes the full list and the genre options are rebuilt from it |
| `ResultView.ViewState.SearchShows` | script.js:243-278 | a blank query changes nothing. Any other query records itself and resets the cursor. A failed or empty answer keeps the lists and controls. A non-empty answer replaces the full list, keeps the sort and threshold, drops a genre no longer offered, and draws the first page |
| `ResultView.ViewState.ShowTrending` | script.js:224-233 | the trending list becomes the full list and the controls reset to best rated first, threshold 0 and all genres. The first page is drawn |
| `ResultView.ViewState.LoadTrending` | script.js:205-240 | the query becomes "Trending" and the cursor resets. A failed request keeps the lists and controls. An answer becomes the full list through the trending selection, with reset controls and the first page drawn |
| `ResultView.ViewState.FavoriteClicked` | script.js:337-342 | the button finds the show by id in the full list and then in the view. The store holds the toggled list and the grid is redrawn; with no such show nothing is written or drawn |

## Left out

- The DOM, the theme toggle, tabs, toasts, skeleton cards, card and detail templates, and the card tilt. These are presentation with no state the pipeline reads (floating-point mouse geometry for the tilt).
- The status line texts and the toast messages. Only which branch was taken is modelled, as `Outcome`.
- `openDetails`, the details modal and the favorites tab's rendering. They only display data.
- The `fetch` calls, `await` and JSON decoding of the answers. Each handler receives the decoded answer as a parameter, with `None` for a failed request or failed decoding.
- The stale-response race between overlapping searches. Handlers are modelled as running to completion one at a time.
- `ResultView.ViewState.SearchShows`: takes the already trimmed query as its parameter. `trim()` is a library call.
- `Favorites.FavoriteStore.Favorites`: the JSON round trip through localStorage is modelled by `Slot`. A stored JSON value that parses to something other than a list or null (a number, an object) is not modelled.
- Floating-point ratings and the subtracting comparators: ratings are integers in tenths, so `ratingOf(b) - ratingOf(a)` is an exact comparison.
- `Number(premiered.slice(0, 4))`: the premiere is an optional integer year. A date whose first four characters are not digits (NaN in the source) is not modelled.
- `Favorites.ToggleAppendsProjection`: the favorites entry keeps the premiere as the same optional year as the show, not as the source's date string.
- `Shows.NameSortsOrder`: `localeCompare` and the default string order of `sort()` are both modelled by code-point lexicographic order. Locale collation and UTF-16 code units are not modelled.
- `Shows.SortShowsSorts`: the order of ties is not stated. The engine's sort algorithm and its stability are not promised, so the model sorts by insertion and claims only permutation and order.
- `ResultView.ViewState.ChangeControls`: the sort select's value is read once into a `SortKey` when it changes, instead of being compared as a string on every re-filter.
- `ResultView.ViewState.BuildGenreOptions`: returns the option values. The markup of the `<option>` elements is not modelled.
- `ResultView.ViewState.LoadTrending`: the `showToastMsg` flag only chooses whether a toast appears, so it is left out.
