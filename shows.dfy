/** Show records and the pure part of the result pipeline of `script.js`:
    the sort keys of `sortShows`, the genre and minimum-rating filters of
    `applyFiltersAndRender`, the trending selection, and the genre set that
    `buildGenreOptions` collects. Ratings are integers in tenths (8.5 is 85). */
module Shows {
  import opened Wrappers
  import opened Seqs

  /** One catalog record. `image` is the medium poster URL, `premiered` the
      premiere year, and a record without genres has the empty sequence. */
  datatype Show = Show(
    id: int,
    name: string,
    image: Option<string>,
    rating: Option<int>,
    premiered: Option<int>,
    genres: seq<string>)

  /** `yearOf`: a missing premiere date counts as -1. */
  function YearOf(s: Show): int {
    s.premiered.GetOr(-1)
  }

  /** `ratingOf`: a missing rating counts as -1.0, which is -10 tenths. */
  function RatingOf(s: Show): int {
    s.rating.GetOr(-10)
  }

  // ---------------------------------------------------------------- names

  /** Code-point lexicographic order on strings. It stands for both
      `localeCompare` and the default order of `Array.prototype.sort`. */
  predicate LexLeq(a: string, b: string)
    decreases |a|
  {
    |a| == 0 || (|b| > 0 && (a[0] < b[0] || (a[0] == b[0] && LexLeq(a[1..], b[1..]))))
  }

  lemma {:induction false} LexLeqTotal(a: string, b: string)
    ensures LexLeq(a, b) || LexLeq(b, a)
    decreases |a|
  {
    if |a| > 0 && |b| > 0 && a[0] == b[0] {
      LexLeqTotal(a[1..], b[1..]);
    }
  }

  lemma {:induction false} LexLeqTransitive(a: string, b: string, c: string)
    requires LexLeq(a, b) && LexLeq(b, c)
    ensures LexLeq(a, c)
    decreases |a|
  {
    if |a| > 0 && a[0] == b[0] && b[0] == c[0] {
      LexLeqTransitive(a[1..], b[1..], c[1..]);
    }
  }

  lemma LexLeqIsTotalPreorder()
    ensures Total(LexLeq) && Transitive(LexLeq)
  {
    forall a, b ensures LexLeq(a, b) || LexLeq(b, a) {
      LexLeqTotal(a, b);
    }
    forall a, b, c | LexLeq(a, b) && LexLeq(b, c) ensures LexLeq(a, c) {
      LexLeqTransitive(a, b, c);
    }
  }

  // ------------------------------------------------------------- sortShows

  /** The comparators of `sortShows`, as "may come first" relations. */
  function RatingDescending(a: Show, b: Show): bool { RatingOf(a) >= RatingOf(b) }
  function RatingAscending(a: Show, b: Show): bool { RatingOf(a) <= RatingOf(b) }
  function YearDescending(a: Show, b: Show): bool { YearOf(a) >= YearOf(b) }
  function YearAscending(a: Show, b: Show): bool { YearOf(a) <= YearOf(b) }
  function NameAscending(a: Show, b: Show): bool { LexLeq(a.name, b.name) }

  /** What the sort select asks `sortShows` for. The select's value is read
      once, by `SortKeyOf`; `Unrecognised` stands for every other value, such
      as "relevance", which keeps the order it is given. */
  datatype SortKey = RatingDesc | RatingAsc | YearDesc | YearAsc | NameAsc | Unrecognised

  /** The select values `sortShows` compares against. */
  function KeyValue(key: SortKey): string {
    match key
    case RatingDesc => "rating_desc"
    case RatingAsc => "rating_asc"
    case YearDesc => "year_desc"
    case YearAsc => "year_asc"
    case NameAsc => "name_asc"
    case Unrecognised => ""
  }

  /** The sort select's value as a key: the key whose compared value it is,
      and `Unrecognised` exactly when it is none of the five. */
  function SortKeyOf(value: string): (key: SortKey)
    ensures key != Unrecognised ==> KeyValue(key) == value
    ensures key == Unrecognised <==> forall k :: k != Unrecognised ==> KeyValue(k) != value
  {
    if value == "rating_desc" then RatingDesc
    else if value == "rating_asc" then RatingAsc
    else if value == "year_desc" then YearDesc
    else if value == "year_asc" then YearAsc
    else if value == "name_asc" then NameAsc
    else Unrecognised
  }

  /** `sortShows`: a sorted copy of `shows`; the input is a value and is left
      as it was. */
  function SortShows(shows: seq<Show>, sortBy: SortKey): seq<Show> {
    match sortBy
    case RatingDesc => SortBy(shows, RatingDescending)
    case RatingAsc => SortBy(shows, RatingAscending)
    case YearDesc => SortBy(shows, YearDescending)
    case YearAsc => SortBy(shows, YearAscending)
    case NameAsc => SortBy(shows, NameAscending)
    case Unrecognised => shows
  }

  /** The copy holds the same records as often as `shows`. Each recognised
      key orders it by its field, a missing rating counting as -1.0 (-10
      tenths) and a missing year as -1, with ties in no promised order; any
      other key keeps the given order. */
  lemma SortShowsSorts(shows: seq<Show>, sortBy: SortKey)
    ensures multiset(SortShows(shows, sortBy)) == multiset(shows)
    ensures sortBy == Unrecognised ==> SortShows(shows, sortBy) == shows
    ensures sortBy == RatingDesc ==> var r := SortShows(shows, sortBy);
              forall i, j :: 0 <= i < j < |r| ==> RatingOf(r[i]) >= RatingOf(r[j])
    ensures sortBy == RatingAsc ==> var r := SortShows(shows, sortBy);
              forall i, j :: 0 <= i < j < |r| ==> RatingOf(r[i]) <= RatingOf(r[j])
    ensures sortBy == YearDesc ==> var r := SortShows(shows, sortBy);
              forall i, j :: 0 <= i < j < |r| ==> YearOf(r[i]) >= YearOf(r[j])
    ensures sortBy == YearAsc ==> var r := SortShows(shows, sortBy);
              forall i, j :: 0 <= i < j < |r| ==> YearOf(r[i]) <= YearOf(r[j])
    ensures sortBy == NameAsc ==> var r := SortShows(shows, sortBy);
              forall i, j :: 0 <= i < j < |r| ==> LexLeq(r[i].name, r[j].name)
  {
    match sortBy
    case RatingDesc => RatingSortsOrder(shows);
    case RatingAsc => RatingSortsOrder(shows);
    case YearDesc => YearSortsOrder(shows);
    case YearAsc => YearSortsOrder(shows);
    case NameAsc => NameSortsOrder(shows);
    case Unrecognised =>
  }

  /** Both rating comparators order the sorted copy by rating. */
  lemma RatingSortsOrder(shows: seq<Show>)
    ensures var r := SortShows(shows, RatingDesc);
      forall i, j :: 0 <= i < j < |r| ==> RatingOf(r[i]) >= RatingOf(r[j])
    ensures var r := SortShows(shows, RatingAsc);
      forall i, j :: 0 <= i < j < |r| ==> RatingOf(r[i]) <= RatingOf(r[j])
  {
    SortBySorted(shows, RatingDescending);
    SortBySorted(shows, RatingAscending);
  }

  /** Both year comparators order the sorted copy by year. */
  lemma YearSortsOrder(shows: seq<Show>)
    ensures var r := SortShows(shows, YearDesc);
      forall i, j :: 0 <= i < j < |r| ==> YearOf(r[i]) >= YearOf(r[j])
    ensures var r := SortShows(shows, YearAsc);
      forall i, j :: 0 <= i < j < |r| ==> YearOf(r[i]) <= YearOf(r[j])
  {
    SortBySorted(shows, YearDescending);
    SortBySorted(shows, YearAscending);
  }

  /** The name comparator orders the sorted copy by name. */
  lemma NameSortsOrder(shows: seq<Show>)
    ensures var r := SortShows(shows, NameAsc);
      forall i, j :: 0 <= i < j < |r| ==> LexLeq(r[i].name, r[j].name)
  {
    forall a, b ensures NameAscending(a, b) || NameAscending(b, a) {
      LexLeqTotal(a.name, b.name);
    }
    forall a, b, c | NameAscending(a, b) && NameAscending(b, c) ensures NameAscending(a, c) {
      LexLeqTransitive(a.name, b.name, c.name);
    }
    SortBySorted(shows, NameAscending);
  }

  // --------------------------------------------------------------- filters

  /** The genre filter: an empty selection keeps every record. */
  predicate GenreMatches(genre: string, s: Show) {
    genre == "" || genre in s.genres
  }

  /** The rating filter: a missing rating counts as 0 here, not -1.0. */
  predicate MeetsMinRating(minRating: int, s: Show) {
    s.rating.GetOr(0) >= minRating
  }

  predicate Kept(genre: string, minRating: int, s: Show) {
    GenreMatches(genre, s) && MeetsMinRating(minRating, s)
  }

  function KeepGenre(genre: string): Show -> bool {
    s => GenreMatches(genre, s)
  }

  function KeepMinRating(minRating: int): Show -> bool {
    s => MeetsMinRating(minRating, s)
  }

  /** The first `.filter` of `applyFiltersAndRender`. */
  function ByGenre(all: seq<Show>, genre: string): seq<Show> {
    Filter(all, KeepGenre(genre))
  }

  /** Both `.filter` calls of `applyFiltersAndRender`, genre first. */
  function FilterShows(all: seq<Show>, genre: string, minRating: int): seq<Show> {
    Filter(ByGenre(all, genre), KeepMinRating(minRating))
  }

  /** The two filters keep exactly the records of `all` that pass both, in
      their original order and as often as in `all`. */
  lemma FilterShowsKeeps(all: seq<Show>, genre: string, minRating: int)
    ensures var r := FilterShows(all, genre, minRating);
      && SubsequenceOf(r, all)
      && forall x {:trigger multiset(r)[x]} ::
           multiset(r)[x] == if Kept(genre, minRating, x) then multiset(all)[x] else 0
  {
    var byGenre := ByGenre(all, genre);
    FilterSpec(all, KeepGenre(genre));
    FilterSpec(byGenre, KeepMinRating(minRating));
    SubsequenceTransitive(FilterShows(all, genre, minRating), byGenre, all);
  }

  /** An empty genre selection drops nothing. */
  lemma EmptyGenreKeepsAll(all: seq<Show>)
    ensures ByGenre(all, "") == all
  {
    FilterKeepsAll(all, KeepGenre(""));
  }

  /** With a threshold of 0 and no negative rating, nothing is dropped on
      rating grounds: the view is the genre filter alone. */
  lemma ZeroMinRatingDropsNothing(all: seq<Show>, genre: string)
    requires forall i :: 0 <= i < |all| ==> all[i].rating.GetOr(0) >= 0
    ensures FilterShows(all, genre, 0) == ByGenre(all, genre)
  {
    var byGenre := ByGenre(all, genre);
    FilterSpec(all, KeepGenre(genre));
    forall i | 0 <= i < |byGenre| ensures MeetsMinRating(0, byGenre[i]) {
      assert byGenre[i] in all;
    }
    FilterKeepsAll(byGenre, KeepMinRating(0));
  }

  /** Selecting a genre that no record has leaves nothing to show. */
  lemma AbsentGenreYieldsNothing(all: seq<Show>, genre: string, minRating: int)
    requires genre != ""
    requires forall i :: 0 <= i < |all| ==> genre !in all[i].genres
    ensures FilterShows(all, genre, minRating) == []
  {
    var r := FilterShows(all, genre, minRating);
    FilterShowsKeeps(all, genre, minRating);
    assert forall x :: multiset(r)[x] == 0;
    assert multiset(r) == multiset{};
  }

  /** The whole view computation: filter, then sort the filtered copy. */
  function ViewOf(all: seq<Show>, genre: string, minRating: int, sortBy: SortKey): seq<Show> {
    SortShows(FilterShows(all, genre, minRating), sortBy)
  }

  /** No record is added or duplicated by the view, every record passing
      both filters is there as often as in `all`, and without a recognised
      sort key the view keeps the order of `all`. */
  lemma ViewContents(all: seq<Show>, genre: string, minRating: int, sortBy: SortKey)
    ensures var r := ViewOf(all, genre, minRating, sortBy);
      && (forall x {:trigger multiset(r)[x]} ::
            multiset(r)[x] == if Kept(genre, minRating, x) then multiset(all)[x] else 0)
      && multiset(r) <= multiset(all)
      && (sortBy == Unrecognised ==> SubsequenceOf(r, all))
  {
    FilterShowsKeeps(all, genre, minRating);
    SortShowsSorts(FilterShows(all, genre, minRating), sortBy);
  }

  // -------------------------------------------------------------- trending

  /** `s.image?.medium` is truthy: a present, non-empty poster URL. */
  predicate HasPoster(s: Show) {
    s.image.Some? && s.image.value != ""
  }

  const TrendingCap: nat := 60

  /** The post-processing of the trending page: shows with a poster, best
      rated first, at most 60 of them. */
  function Trending(data: seq<Show>): seq<Show> {
    Take(SortBy(Filter(data, HasPoster), RatingDescending), TrendingCap)
  }

  /** Every trending show has a poster, none is added or repeated, they
      come best rated first, and there are 60 of them unless fewer shows
      have a poster. */
  lemma TrendingSelection(data: seq<Show>)
    ensures |Trending(data)| == Min(TrendingCap, |Filter(data, HasPoster)|)
    ensures var r := Trending(data); forall i :: 0 <= i < |r| ==> HasPoster(r[i])
    ensures var r := Trending(data);
      forall i, j :: 0 <= i < j < |r| ==> RatingOf(r[i]) >= RatingOf(r[j])
    ensures multiset(Trending(data)) <= multiset(data)
  {
    var withPoster := Filter(data, HasPoster);
    var sorted := SortBy(withPoster, RatingDescending);
    SortBySorted(withPoster, RatingDescending);
    TakeKeeps(sorted, TrendingCap);
    var r := Take(sorted, TrendingCap);
    assert Trending(data) == r;
    FilteredMembers(r, data, HasPoster);
    forall i, j | 0 <= i < j < |r| ensures RatingOf(r[i]) >= RatingOf(r[j]) {
      assert r[i] == sorted[i] && r[j] == sorted[j];
      assert RatingDescending(sorted[i], sorted[j]);
    }
  }

  /** The cap keeps the best rated: a show with a poster that did not make
      the cut is rated no higher than any show that did. */
  lemma TrendingKeepsHighestRated(data: seq<Show>, x: Show)
    requires x in data && HasPoster(x) && x !in Trending(data)
    ensures forall y :: y in Trending(data) ==> RatingOf(y) >= RatingOf(x)
  {
    var withPoster := Filter(data, HasPoster);
    var sorted := SortBy(withPoster, RatingDescending);
    SortBySorted(withPoster, RatingDescending);
    FilterSpec(data, HasPoster);
    var r := Trending(data);
    assert r == Take(sorted, TrendingCap);
    assert x in multiset(sorted);
    var m :| 0 <= m < |sorted| && sorted[m] == x;
    assert m >= |r|;
    forall y | y in r ensures RatingOf(y) >= RatingOf(x) {
      var i :| 0 <= i < |r| && r[i] == y;
      assert sorted[i] == y;
    }
  }

  // ---------------------------------------------------------------- genres

  /** Some record of `shows` lists genre `g`. */
  ghost predicate HasGenre(shows: seq<Show>, g: string) {
    exists k :: 0 <= k < |shows| && g in shows[k].genres
  }

  lemma HasGenreExtend(shows: seq<Show>, i: nat)
    requires i < |shows|
    ensures forall g :: HasGenre(shows[..i + 1], g) <==> HasGenre(shows[..i], g) || g in shows[i].genres
  {
    forall g ensures HasGenre(shows[..i + 1], g) <==> HasGenre(shows[..i], g) || g in shows[i].genres {
      if HasGenre(shows[..i + 1], g) {
        var k :| 0 <= k < i + 1 && g in shows[..i + 1][k].genres;
        if k < i {
          assert shows[..i][k] == shows[k];
        }
      }
      if HasGenre(shows[..i], g) {
        var k :| 0 <= k < i && g in shows[..i][k].genres;
        assert shows[..i + 1][k] == shows[k];
      }
      if g in shows[i].genres {
        assert shows[..i + 1][i] == shows[i];
      }
    }
  }

  /** The `forEach` loops of `buildGenreOptions` that fill a `Set`: every
      genre of every record, each once, in order of first appearance. */
  method CollectGenres(shows: seq<Show>) returns (genres: seq<string>)
    ensures Distinct(genres)
    ensures forall g :: g in genres <==> HasGenre(shows, g)
  {
    genres := [];
    var i := 0;
    while i < |shows|
      invariant 0 <= i <= |shows|
      invariant Distinct(genres)
      invariant forall g :: g in genres <==> HasGenre(shows[..i], g)
    {
      var gs := shows[i].genres;
      var j := 0;
      while j < |gs|
        invariant 0 <= j <= |gs|
        invariant Distinct(genres)
        invariant forall g :: g in genres <==> HasGenre(shows[..i], g) || g in gs[..j]
      {
        if gs[j] !in genres {
          genres := genres + [gs[j]];
        }
        assert gs[..j + 1] == gs[..j] + [gs[j]];
        j := j + 1;
      }
      assert gs[..j] == gs;
      HasGenreExtend(shows, i);
      i := i + 1;
    }
    assert shows[..i] == shows;
  }

  /** The option values of the genre select: "" (all genres) first, then the
      collected genres in string order. */
  function GenreOptions(genres: seq<string>): (options: seq<string>)
    ensures |options| == |genres| + 1 && options[0] == ""
    ensures multiset(options[1..]) == multiset(genres)
    ensures forall i, j :: 1 <= i < j < |options| ==> LexLeq(options[i], options[j])
  {
    var sorted := SortBy(genres, LexLeq);
    LexLeqIsTotalPreorder();
    SortBySorted(genres, LexLeq);
    assert ([""] + sorted)[1..] == sorted;
    [""] + sorted
  }

  /** `find` by id: the first record with that id, if any. */
  function FindById(shows: seq<Show>, id: int): (r: Option<Show>)
    ensures r.Some? ==> r.value.id == id
    ensures r.Some? ==>
      exists k :: 0 <= k < |shows| && shows[k] == r.value && forall j :: 0 <= j < k ==> shows[j].id != id
    ensures r.None? <==> forall k :: 0 <= k < |shows| ==> shows[k].id != id
    decreases |shows|
  {
    if |shows| == 0 then None
    else if shows[0].id == id then
      Some(shows[0])
    else
      var r := FindById(shows[1..], id);
      assert forall k :: 1 <= k < |shows| ==> shows[k] == shows[1..][k - 1];
      if r.Some? then
        var k :| 0 <= k < |shows[1..]| && shows[1..][k] == r.value &&
                 forall j :: 0 <= j < k ==> shows[1..][j].id != id;
        assert shows[k + 1] == r.value;
        r
      else r
  }
}
