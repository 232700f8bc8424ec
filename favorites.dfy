/** The favorites store of `script.js`: an ordered list of projected show
    entries kept under one localStorage key and addressed by show id. */
module Favorites {
  import opened Wrappers
  import opened Seqs
  import opened Shows

  /** The reduced projection of a show that the favorites list keeps. */
  datatype FavEntry = FavEntry(
    id: int,
    name: string,
    image: string,
    rating: Option<int>,
    premiered: Option<int>)

  /** What the favorites key holds, as `JSON.parse` sees it. */
  datatype Slot =
    | Missing                         // no value under the key, or JSON `null`
    | Unparseable                     // `JSON.parse` throws
    | Saved(entries: seq<FavEntry>)   // a list written by `setFavorites`

  /** The entry `toggleFav` appends: no poster becomes "", and the rating
      and premiere stay absent when the show has none. */
  function Project(show: Show): FavEntry {
    FavEntry(show.id, show.name, show.image.GetOr(""), show.rating, show.premiered)
  }

  function DistinctIds(a: FavEntry, b: FavEntry): bool {
    a.id != b.id
  }

  /** No two entries share an id. */
  ghost predicate UniqueIds(favs: seq<FavEntry>) {
    Pairwise(favs, DistinctIds)
  }

  /** `some(x => x.id === id)`. */
  function HasId(favs: seq<FavEntry>, id: int): (b: bool)
    ensures b <==> exists k :: 0 <= k < |favs| && favs[k].id == id
    decreases |favs|
  {
    if |favs| == 0 then false
    else if favs[0].id == id then true
    else
      assert forall k :: 1 <= k < |favs| ==> favs[k] == favs[1..][k - 1];
      HasId(favs[1..], id)
  }

  /** `findIndex(x => x.id === id)`: the first position holding `id`, or -1. */
  function FindIndex(favs: seq<FavEntry>, id: int): (idx: int)
    ensures -1 <= idx < |favs|
    ensures idx >= 0 ==> favs[idx].id == id && forall k :: 0 <= k < idx ==> favs[k].id != id
    ensures idx == -1 <==> !HasId(favs, id)
    decreases |favs|
  {
    if |favs| == 0 then -1
    else if favs[0].id == id then 0
    else
      var i := FindIndex(favs[1..], id);
      assert forall k :: 1 <= k < |favs| ==> favs[k] == favs[1..][k - 1];
      if i < 0 then -1 else i + 1
  }

  /** The list `toggleFav` writes back: the first entry with the show's id
      spliced out, or the show's projection pushed at the end. */
  function Toggled(favs: seq<FavEntry>, show: Show): (r: seq<FavEntry>)
    ensures |r| == if HasId(favs, show.id) then |favs| - 1 else |favs| + 1
  {
    var idx := FindIndex(favs, show.id);
    if idx >= 0 then favs[..idx] + favs[idx + 1..] else favs + [Project(show)]
  }

  /** When the id is present, exactly the entry at its first position goes
      and every other entry keeps its place in the order. */
  lemma ToggleRemovesFirstMatch(favs: seq<FavEntry>, show: Show, i: nat)
    requires i < |favs| && favs[i].id == show.id
    requires forall k :: 0 <= k < i ==> favs[k].id != show.id
    ensures Toggled(favs, show) == favs[..i] + favs[i + 1..]
  {
  }

  /** When the id is absent, one entry is appended and the earlier entries
      are untouched; the new entry carries the show's id and name, its poster
      or "", and its rating and premiere or nothing. */
  lemma ToggleAppendsProjection(favs: seq<FavEntry>, show: Show)
    requires !HasId(favs, show.id)
    ensures var r := Toggled(favs, show);
      && |r| == |favs| + 1 && r[..|favs|] == favs
      && r[|favs|].id == show.id && r[|favs|].name == show.name
      && r[|favs|].image == (if show.image.Some? then show.image.value else "")
      && r[|favs|].rating == show.rating && r[|favs|].premiered == show.premiered
  {
    var r := Toggled(favs, show);
    assert r == favs + [Project(show)];
    assert r[..|favs|] == favs;
  }

  /** Toggling keeps ids unique. */
  lemma ToggleKeepsIdsUnique(favs: seq<FavEntry>, show: Show)
    requires UniqueIds(favs)
    ensures UniqueIds(Toggled(favs, show))
  {
    var idx := FindIndex(favs, show.id);
    if idx >= 0 {
      assert Toggled(favs, show) == favs[..idx] + favs[idx + 1..];
      PairwiseRemoveAt(favs, idx, DistinctIds);
    } else {
      assert Toggled(favs, show) == favs + [Project(show)];
      forall k | 0 <= k < |favs| ensures DistinctIds(favs[k], Project(show)) {
        assert favs[k].id != show.id;
      }
      PairwiseAppend(favs, Project(show), DistinctIds);
    }
  }

  /** With unique ids, toggling a favorite off leaves no entry with its id. */
  lemma ToggleOffRemovesId(favs: seq<FavEntry>, show: Show)
    requires UniqueIds(favs) && HasId(favs, show.id)
    ensures !HasId(Toggled(favs, show), show.id)
  {
    var idx := FindIndex(favs, show.id);
    var r := favs[..idx] + favs[idx + 1..];
    assert Toggled(favs, show) == r;
    RemoveAt(favs, idx);
    forall k | 0 <= k < |r| ensures r[k].id != show.id {
      if k >= idx {
        assert r[k] == favs[k + 1];
        assert DistinctIds(favs[idx], favs[k + 1]);
      }
    }
  }

  /** With unique ids, toggling flips membership of the show's id. */
  lemma ToggleFlipsMembership(favs: seq<FavEntry>, show: Show)
    requires UniqueIds(favs)
    ensures HasId(Toggled(favs, show), show.id) <==> !HasId(favs, show.id)
  {
    if HasId(favs, show.id) {
      ToggleOffRemovesId(favs, show);
    } else {
      ToggleAppendsProjection(favs, show);
    }
  }

  /** Toggling a show that is not a favorite, then toggling it again,
      restores the list exactly. */
  lemma ToggleTwiceRestores(favs: seq<FavEntry>, show: Show)
    requires !HasId(favs, show.id)
    ensures Toggled(Toggled(favs, show), show) == favs
  {
    var once := Toggled(favs, show);
    assert once == favs + [Project(show)];
    ToggleRemovesFirstMatch(once, show, |favs|);
    assert once[..|favs|] == favs;
  }

  function KeepOtherIds(id: int): FavEntry -> bool {
    (e: FavEntry) => e.id != id
  }

  /** The favorites tab's remove: `filter(x => x.id !== id)` drops every
      entry with that id and keeps the rest in order. */
  function WithoutId(favs: seq<FavEntry>, id: int): (r: seq<FavEntry>)
    ensures SubsequenceOf(r, favs)
    ensures forall e {:trigger multiset(r)[e]} :: multiset(r)[e] == if e.id != id then multiset(favs)[e] else 0
    ensures forall e :: e in r <==> e in favs && e.id != id
    ensures !HasId(r, id)
  {
    FilterSpec(favs, KeepOtherIds(id));
    var r := Filter(favs, KeepOtherIds(id));
    assert forall k :: 0 <= k < |r| ==> r[k] in r;
    r
  }

  /** Removing an id that is not there leaves the list unchanged. */
  lemma RemoveAbsentIdUnchanged(favs: seq<FavEntry>, id: int)
    requires !HasId(favs, id)
    ensures WithoutId(favs, id) == favs
  {
    FilterKeepsAll(favs, KeepOtherIds(id));
  }

  /** Removing by id keeps ids unique. */
  lemma RemoveKeepsIdsUnique(favs: seq<FavEntry>, id: int)
    requires UniqueIds(favs)
    ensures UniqueIds(WithoutId(favs, id))
  {
    SubsequencePairwise(WithoutId(favs, id), favs, DistinctIds);
  }

  /** With unique ids, removing a favorite from the favorites tab leaves the
      same list as toggling it off from the results grid. */
  lemma RemoveAgreesWithToggle(favs: seq<FavEntry>, show: Show)
    requires UniqueIds(favs) && HasId(favs, show.id)
    ensures WithoutId(favs, show.id) == Toggled(favs, show)
  {
    var idx := FindIndex(favs, show.id);
    var keep := KeepOtherIds(show.id);
    forall k | 0 <= k < |favs| && k != idx ensures keep(favs[k]) {
      if k > idx {
        assert DistinctIds(favs[idx], favs[k]);
      }
    }
    FilterDropsAt(favs, idx, keep);
    assert WithoutId(favs, show.id) == Filter(favs, keep);
  }

  /** The favorites key of localStorage, as `getFavorites`, `setFavorites`,
      `isFav`, `toggleFav` and the favorites tab's remove read and write it. */
  class FavoriteStore {
    var slot: Slot

    constructor (stored: Slot)
      ensures slot == stored
    {
      slot := stored;
    }

    /** `getFavorites`: a missing, null or unparseable value reads as the
        empty list and never fails. */
    function Favorites(): (favs: seq<FavEntry>)
      reads this
      ensures !slot.Saved? ==> favs == []
      ensures slot.Saved? ==> favs == slot.entries
    {
      match slot
      case Saved(entries) => entries
      case _ => []
    }

    /** `setFavorites`: overwrites the key with the whole list. */
    method SetFavorites(favs: seq<FavEntry>)
      modifies this
      ensures slot == Saved(favs) && Favorites() == favs
    {
      slot := Saved(favs);
    }

    /** `isFav`: some stored entry has this id. */
    method IsFav(id: int) returns (b: bool)
      ensures b <==> exists k :: 0 <= k < |Favorites()| && Favorites()[k].id == id
    {
      b := HasId(Favorites(), id);
    }

    /** `toggleFav`: read the list, splice out the first entry with the
        show's id or push the show's projection, and write the list back.
        `added` tells which of the two happened (the toast shown). */
    method ToggleFav(show: Show) returns (added: bool)
      modifies this
      ensures slot.Saved? && Favorites() == Toggled(old(Favorites()), show)
      ensures added <==> !HasId(old(Favorites()), show.id)
      ensures UniqueIds(old(Favorites())) ==>
                UniqueIds(Favorites()) && (HasId(Favorites(), show.id) <==> added)
    {
      ghost var before := Favorites();
      var favs := Favorites();
      var idx := FindIndex(favs, show.id);
      if idx >= 0 {
        favs := favs[..idx] + favs[idx + 1..];
        SetFavorites(favs);
        added := false;
      } else {
        favs := favs + [Project(show)];
        SetFavorites(favs);
        added := true;
      }
      if UniqueIds(before) {
        ToggleKeepsIdsUnique(before, show);
        ToggleFlipsMembership(before, show);
      }
    }

    /** The favorites tab's remove button: drop every entry with this id and
        write the list back. */
    method RemoveFavorite(id: int)
      modifies this
      ensures slot.Saved? && Favorites() == WithoutId(old(Favorites()), id)
      ensures !HasId(old(Favorites()), id) ==> Favorites() == old(Favorites())
      ensures UniqueIds(old(Favorites())) ==> UniqueIds(Favorites())
    {
      ghost var before := Favorites();
      var favs := WithoutId(Favorites(), id);
      SetFavorites(favs);
      if !HasId(before, id) {
        RemoveAbsentIdUnchanged(before, id);
      }
      if UniqueIds(before) {
        RemoveKeepsIdsUnique(before, id);
      }
    }
  }
}
