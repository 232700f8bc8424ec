/** The module-level view state of `script.js` and the handlers that update
    it: the full result list, the filtered and sorted view, the reveal
    cursor, and the three filter controls. Fetching is outside the model:
    each handler receives what the catalog answered, `None` when the request
    or its JSON failed. */
module ResultView {
  import opened Wrappers
  import opened Seqs
  import opened Shows
  import opened Favorites

  /** Cards shown at first, and added by each "load more". */
  const PageSize: nat := 12

  /** One rendered card: its show and whether it carries the favorite badge. */
  datatype Card = Card(show: Show, favorite: bool)

  /** What `renderGrid` draws: the cards, and whether the load-more control
      is visible. */
  datatype Grid = Grid(cards: seq<Card>, loadMore: bool)

  /** How a search or a trending load ends. */
  datatype Outcome =
    | BlankQuery          // nothing typed, nothing fetched
    | FetchFailed         // the request or its JSON failed
    | NoResults           // the search answered an empty list
    | Rendered(grid: Grid)

  /** `renderGrid`'s output for a view, a reveal cursor and a favorites list:
      the first `visibleCount` shows of the view, each badged iff it is a
      favorite, and the load-more control shown iff some show is still
      hidden. */
  ghost predicate IsGrid(grid: Grid, view: seq<Show>, visibleCount: nat, favs: seq<FavEntry>) {
    && |grid.cards| == Min(visibleCount, |view|)
    && (forall k :: 0 <= k < |grid.cards| ==>
          grid.cards[k].show == view[k] && (grid.cards[k].favorite <==> HasId(favs, view[k].id)))
    && (grid.loadMore <==> |grid.cards| < |view|)
  }

  /** `renderGrid` for a view, a cursor and the stored favorites: one card
      per show of `slice(0, visibleCount)`, and load-more unless
      `total > visibleCount` fails. */
  function RenderGrid(view: seq<Show>, visibleCount: nat, favs: seq<FavEntry>): (grid: Grid)
    ensures IsGrid(grid, view, visibleCount, favs)
  {
    var page := Take(view, visibleCount);
    Grid(seq(|page|, k requires 0 <= k < |page| => Card(page[k], HasId(favs, page[k].id))),
         |view| > visibleCount)
  }

  /** A card on the grid always names a show of the full result list, so the
      favorite button's `allResults.find` never comes back empty and its
      fallback to `viewResults.find` is never needed. */
  lemma RenderedCardIsFound(all: seq<Show>, genre: string, minRating: int, sortBy: SortKey, visibleCount: nat, k: nat)
    requires k < |Take(ViewOf(all, genre, minRating, sortBy), visibleCount)|
    ensures FindById(all, Take(ViewOf(all, genre, minRating, sortBy), visibleCount)[k].id).Some?
  {
    var view := ViewOf(all, genre, minRating, sortBy);
    ViewContents(all, genre, minRating, sortBy);
    var x := view[k];
    assert Take(view, visibleCount)[k] == x;
    assert x in multiset(view);
    assert x in all;
    var m :| 0 <= m < |all| && all[m] == x;
    assert all[m].id == x.id;
  }

  /** "Load more" only appends: the cards already drawn stay first and
      unchanged, and once the load-more control is hidden another page
      draws the same grid. */
  lemma LoadMoreExtendsGrid(view: seq<Show>, visibleCount: nat, favs: seq<FavEntry>)
    ensures var before := RenderGrid(view, visibleCount, favs);
      var after := RenderGrid(view, visibleCount + PageSize, favs);
      && before.cards <= after.cards
      && (!before.loadMore ==> after == before)
  {
  }

  class ViewState {
    var lastQuery: string
    var allResults: seq<Show>
    var viewResults: seq<Show>
    var visibleCount: nat
    /** How many pages the cursor has revealed. */
    ghost var pages: nat
    /** The values of the genre select, the min-rating slider (in tenths)
        and the sort select. */
    var genre: string
    var minRating: int
    var sortBy: SortKey

    /** The view is always the pipeline applied to the full list under the
        current controls, and the cursor is a positive multiple of a page. */
    ghost predicate Valid()
      reads this
    {
      CursorOnPage() && ViewIsCurrent()
    }

    ghost predicate CursorOnPage()
      reads this`visibleCount, this`pages
    {
      pages >= 1 && visibleCount == PageSize * pages
    }

    ghost predicate ViewIsCurrent()
      reads this`allResults, this`viewResults, this`genre, this`minRating, this`sortBy
    {
      viewResults == ViewOf(allResults, genre, minRating, sortBy)
    }

    /** The state at page load, with the controls' initial values. */
    constructor (minRating: int, sortValue: string)
      ensures Valid()
      ensures lastQuery == "" && allResults == [] && viewResults == [] && visibleCount == PageSize
      ensures genre == "" && this.minRating == minRating && sortBy == SortKeyOf(sortValue)
    {
      lastQuery := "";
      allResults := [];
      viewResults := [];
      visibleCount, pages := PageSize, 1;
      genre := "";
      this.minRating := minRating;
      sortBy := SortKeyOf(sortValue);
      assert FilterShows([], "", minRating) == [];
    }

    /** `visibleCount = 12`: back to the first page. */
    method ResetCursor()
      modifies this`visibleCount, this`pages
      ensures CursorOnPage() && visibleCount == PageSize
    {
      visibleCount, pages := PageSize, 1;
    }

    /** `visibleCount += 12`: one page further. */
    method NextPage()
      requires CursorOnPage()
      modifies this`visibleCount, this`pages
      ensures CursorOnPage() && visibleCount == old(visibleCount) + PageSize
    {
      visibleCount, pages := visibleCount + PageSize, pages + 1;
    }

    /** What a search and a trending load do before their request: record
        the query and go back to the first page. The lists and controls are
        untouched, so the view stays current. */
    method StartRequest(query: string)
      requires Valid()
      modifies this`lastQuery, this`visibleCount, this`pages
      ensures Valid() && lastQuery == query && visibleCount == PageSize
    {
      lastQuery := query;
      ResetCursor();
    }

    /** `applyFiltersAndRender`: recompute the view from the full list and
        the controls, reset the cursor to one page, and render. */
    method ApplyFiltersAndRender(store: FavoriteStore) returns (grid: Grid)
      modifies this
      ensures Valid() && visibleCount == PageSize
      ensures lastQuery == old(lastQuery) && allResults == old(allResults)
      ensures genre == old(genre) && minRating == old(minRating) && sortBy == old(sortBy)
      ensures IsGrid(grid, viewResults, visibleCount, store.Favorites())
    {
      var view := ViewOf(allResults, genre, minRating, sortBy);
      viewResults := view;
      visibleCount, pages := PageSize, 1;
      grid := RenderGrid(view, PageSize, store.Favorites());
    }

    /** The change handlers of the genre select, the sort select and the
        min-rating slider: take the new control values and re-filter. */
    method ChangeControls(genre: string, minRating: int, sortValue: string, store: FavoriteStore)
      returns (grid: Grid)
      modifies this
      ensures Valid() && visibleCount == PageSize
      ensures this.genre == genre && this.minRating == minRating && sortBy == SortKeyOf(sortValue)
      ensures lastQuery == old(lastQuery) && allResults == old(allResults)
      ensures IsGrid(grid, viewResults, visibleCount, store.Favorites())
    {
      this.genre, this.minRating, sortBy := genre, minRating, SortKeyOf(sortValue);
      grid := ApplyFiltersAndRender(store);
    }

    /** The load-more handler: reveal one more page of the same view. */
    method LoadMore(store: FavoriteStore) returns (grid: Grid)
      requires Valid()
      modifies this
      ensures Valid() && visibleCount == old(visibleCount) + PageSize
      ensures lastQuery == old(lastQuery) && allResults == old(allResults) && viewResults == old(viewResults)
      ensures genre == old(genre) && minRating == old(minRating) && sortBy == old(sortBy)
      ensures IsGrid(grid, viewResults, visibleCount, store.Favorites())
    {
      NextPage();
      grid := RenderGrid(viewResults, visibleCount, store.Favorites());
    }

    /** `buildGenreOptions`: the genre select offers "" (all genres) and
        every genre of `shows` in string order, each once; the current
        selection survives only if it is still offered. */
    method BuildGenreOptions(shows: seq<Show>) returns (options: seq<string>)
      modifies this`genre
      ensures |options| >= 1 && options[0] == ""
      ensures Distinct(options[1..])
      ensures forall g {:trigger g in options[1..]} :: g in options[1..] <==> HasGenre(shows, g)
      ensures forall i, j :: 1 <= i < j < |options| ==> LexLeq(options[i], options[j])
      ensures genre == if old(genre) in options then old(genre) else ""
      ensures genre == old(genre) <==> old(genre) == "" || HasGenre(shows, old(genre))
    {
      var genres := CollectGenres(shows);
      options := GenreOptions(genres);
      assert forall g :: g in options[1..] <==> g in multiset(genres);
      assert forall g :: g in options <==> g == "" || g in options[1..] by {
        assert options == [options[0]] + options[1..];
      }
      if genre !in options {
        genre := "";
      }
    }

    /** A successful answer becomes the full list and the genre options are
        rebuilt from it: the selected genre survives only if it is still
        offered. The view is not recomputed yet. */
    method TakeResults(data: seq<Show>)
      modifies this
      ensures allResults == data
      ensures genre == if old(genre) == "" || HasGenre(data, old(genre)) then old(genre) else ""
      ensures lastQuery == old(lastQuery) && viewResults == old(viewResults) && visibleCount == old(visibleCount)
      ensures minRating == old(minRating) && sortBy == old(sortBy)
    {
      allResults := data;
      var _ := BuildGenreOptions(data);
    }

    /** `searchShows` after its request: a blank query changes nothing; any
        other query resets the cursor, and a non-empty answer replaces the
        full list, rebuilds the genre options and re-filters with the kept
        controls. A failed or empty answer leaves the lists alone. */
    method SearchShows(query: string, fetched: Option<seq<Show>>, store: FavoriteStore)
      returns (outcome: Outcome)
      requires Valid()
      modifies this
      ensures Valid()
      ensures query == "" ==> outcome == BlankQuery && unchanged(this)
      ensures query != "" ==> lastQuery == query && visibleCount == PageSize
      ensures query != "" && (fetched.None? || |fetched.value| == 0) ==>
                && outcome == (if fetched.None? then FetchFailed else NoResults)
                && allResults == old(allResults) && viewResults == old(viewResults)
                && genre == old(genre) && minRating == old(minRating) && sortBy == old(sortBy)
      ensures query != "" && fetched.Some? && |fetched.value| > 0 ==>
                && allResults == fetched.value
                && genre == (if old(genre) == "" || HasGenre(fetched.value, old(genre)) then old(genre) else "")
                && minRating == old(minRating) && sortBy == old(sortBy)
                && outcome.Rendered?
                && IsGrid(outcome.grid, viewResults, visibleCount, store.Favorites())
    {
      if query == "" {
        return BlankQuery;
      }
      StartRequest(query);
      match fetched
      case None =>
        outcome := FetchFailed;
      case Some(data) =>
        if |data| == 0 {
          outcome := NoResults;
        } else {
          TakeResults(data);
          var grid := ApplyFiltersAndRender(store);
          outcome := Rendered(grid);
        }
    }

    /** A trending load that succeeded: the selection becomes the full
        list, the genre options are rebuilt from it, the controls reset to
        best rated first, no threshold and all genres, and the view is
        recomputed. */
    method ShowTrending(trending: seq<Show>, store: FavoriteStore) returns (grid: Grid)
      modifies this
      ensures Valid() && visibleCount == PageSize
      ensures allResults == trending && lastQuery == old(lastQuery)
      ensures sortBy == RatingDesc && minRating == 0 && genre == ""
      ensures IsGrid(grid, viewResults, visibleCount, store.Favorites())
    {
      TakeResults(trending);
      sortBy, minRating, genre := RatingDesc, 0, "";
      grid := ApplyFiltersAndRender(store);
    }

    /** `loadTrending` after its request: the cursor resets, and a successful
        answer becomes the full list (trending selection), the controls reset
        to best rated first, no threshold and all genres, and the view is
        recomputed. A failed request leaves the lists and controls alone. */
    method LoadTrending(fetched: Option<seq<Show>>, store: FavoriteStore) returns (outcome: Outcome)
      requires Valid()
      modifies this
      ensures Valid() && lastQuery == "Trending" && visibleCount == PageSize
      ensures fetched.None? ==>
                && outcome == FetchFailed
                && allResults == old(allResults) && viewResults == old(viewResults)
                && genre == old(genre) && minRating == old(minRating) && sortBy == old(sortBy)
      ensures fetched.Some? ==>
                && allResults == Trending(fetched.value)
                && sortBy == RatingDesc && minRating == 0 && genre == ""
                && outcome.Rendered?
                && IsGrid(outcome.grid, viewResults, visibleCount, store.Favorites())
    {
      StartRequest("Trending");
      match fetched
      case None =>
        outcome := FetchFailed;
      case Some(data) =>
        var grid := ShowTrending(Trending(data), store);
        outcome := Rendered(grid);
    }

    /** A card's favorite button: look the show up by id in the full list,
        then in the view, toggle it in the store and re-render. When neither
        list has the id, the source fails on `show.id` before anything is
        written or drawn: the result is `None` and the store is untouched. */
    method FavoriteClicked(id: int, store: FavoriteStore) returns (grid: Option<Grid>)
      requires Valid()
      modifies store
      ensures Valid()
      ensures var found := if FindById(allResults, id).Some? then FindById(allResults, id)
                           else FindById(viewResults, id);
        && (found.None? ==> grid.None? && store.slot == old(store.slot))
        && (found.Some? ==>
              && store.Favorites() == Toggled(old(store.Favorites()), found.value)
              && grid.Some?
              && IsGrid(grid.value, viewResults, visibleCount, store.Favorites()))
    {
      var show := FindById(allResults, id);
      if show.None? {
        show := FindById(viewResults, id);
      }
      if show.None? {
        return None;
      }
      var _ := store.ToggleFav(show.value);
      grid := Some(RenderGrid(viewResults, visibleCount, store.Favorites()));
    }
  }
}
