/**
 The in-memory favorites collection: an insertion-ordered sequence of
 records, kept unique by `imdb_id`, with membership, de-duplicated add,
 remove-first, toggle and count.

 The mutex, the asynchronous flush after each mutation and the `saving`
 flag are not modelled; `favorites_file.dfy` holds what the flush writes.
 */
module Favorites {
  import opened Text
  import opened MovieRecord

  /** No two records share an id. */
  predicate UniqueIds(favs: seq<Movie>) {
    forall i, j :: 0 <= i < j < |favs| ==> favs[i].imdb_id != favs[j].imdb_id
  }

  /** Some record has this id. */
  ghost predicate HasId(favs: seq<Movie>, id: string) {
    exists i :: 0 <= i < |favs| && favs[i].imdb_id == id
  }

  /** `std::find_if` on the id: the index of the first record with that id. */
  function FindId(favs: seq<Movie>, id: string): (r: Option<nat>)
    ensures r.Some? ==> r.value < |favs| && favs[r.value].imdb_id == id
    ensures r.Some? ==> forall j :: 0 <= j < r.value ==> favs[j].imdb_id != id
    ensures r.None? ==> forall j :: 0 <= j < |favs| ==> favs[j].imdb_id != id
    decreases |favs|
  {
    if |favs| == 0 then None
    else if favs[0].imdb_id == id then Some(0)
    else
      match FindId(favs[1..], id)
      case None => None
      case Some(k) => Some(k + 1)
  }

  /** `isFavorite`. */
  function IsFavorite(favs: seq<Movie>, id: string): (r: bool)
    ensures r <==> HasId(favs, id)
  {
    FindId(favs, id).Some?
  }

  /** `addFavorite`: appends the record unless its id is already present. */
  function AddFavorite(favs: seq<Movie>, m: Movie): (r: seq<Movie>)
    ensures HasId(favs, m.imdb_id) ==> r == favs
    ensures !HasId(favs, m.imdb_id) ==> r == favs + [m] && |r| == |favs| + 1
    ensures HasId(r, m.imdb_id)
    ensures UniqueIds(favs) ==> UniqueIds(r)
  {
    if IsFavorite(favs, m.imdb_id) then favs
    else
      var r := favs + [m];
      assert r[|favs|].imdb_id == m.imdb_id;
      r
  }

  /** `removeFavorite`: erases the first record with the id, keeping the others in order. */
  function RemoveFavorite(favs: seq<Movie>, id: string): (r: seq<Movie>)
    ensures !HasId(favs, id) ==> r == favs
    ensures HasId(favs, id) ==>
      exists k :: 0 <= k < |favs| && favs[k].imdb_id == id
        && (forall j :: 0 <= j < k ==> favs[j].imdb_id != id)
        && r == favs[..k] + favs[k + 1..]
    ensures UniqueIds(favs) ==> UniqueIds(r) && !HasId(r, id)
  {
    match FindId(favs, id)
    case None => favs
    case Some(k) =>
      var r := favs[..k] + favs[k + 1..];
      assert forall j :: 0 <= j < k ==> r[j] == favs[j];
      assert forall j :: k <= j < |r| ==> r[j] == favs[j + 1];
      r
  }

  /** `toggleFavorite`: removes the id when present, adds the record when absent. */
  function ToggleFavorite(favs: seq<Movie>, m: Movie): (r: seq<Movie>)
    ensures HasId(favs, m.imdb_id) ==> r == RemoveFavorite(favs, m.imdb_id)
    ensures !HasId(favs, m.imdb_id) ==> r == favs + [m]
  {
    if IsFavorite(favs, m.imdb_id) then RemoveFavorite(favs, m.imdb_id) else AddFavorite(favs, m)
  }

  /** The ids of the records. */
  function Ids(favs: seq<Movie>): set<string> {
    set i | 0 <= i < |favs| :: favs[i].imdb_id
  }

  /** Appending a record adds its id to the ids. */
  lemma IdsSnoc(front: seq<Movie>, last: Movie)
    ensures Ids(front + [last]) == Ids(front) + {last.imdb_id}
  {
    var favs := front + [last];
    assert favs[|front|] == last;
    assert last.imdb_id in Ids(favs);
    forall id | id in Ids(favs)
      ensures id in Ids(front) + {last.imdb_id}
    {
      var i :| 0 <= i < |favs| && favs[i].imdb_id == id;
      if i < |front| {
        assert front[i] == favs[i];
      }
    }
    forall id | id in Ids(front)
      ensures id in Ids(favs)
    {
      var i :| 0 <= i < |front| && front[i].imdb_id == id;
      assert favs[i] == front[i];
    }
  }

  /** With unique ids there are as many ids as records. */
  lemma {:induction false} UniqueIdsCount(favs: seq<Movie>)
    requires UniqueIds(favs)
    ensures |Ids(favs)| == |favs|
    decreases |favs|
  {
    if |favs| > 0 {
      var front := favs[..|favs| - 1];
      var last := favs[|favs| - 1];
      assert favs == front + [last];
      assert UniqueIds(front);
      UniqueIdsCount(front);
      IdsSnoc(front, last);
      forall i | 0 <= i < |front|
        ensures front[i].imdb_id != last.imdb_id
      {
        assert front[i] == favs[i];
      }
      assert last.imdb_id !in Ids(front);
    }
  }

  /**
   `getFavoritesCount`: the number of records; in a collection kept unique
   by id, the number of distinct favorite ids, and 0 exactly when no id is
   a favorite.
   */
  function FavoritesCount(favs: seq<Movie>): (n: nat)
    ensures n == |favs|
    ensures UniqueIds(favs) ==> n == |Ids(favs)|
    ensures n == 0 <==> Ids(favs) == {}
  {
    if UniqueIds(favs) then UniqueIdsCount(favs); |favs|
    else
      assert |favs| > 0 ==> favs[0].imdb_id in Ids(favs);
      |favs|
  }

  /** A record loaded twice counts twice, although it contributes one id. */
  lemma CountIncludesRepeatedIds(m: Movie)
    ensures FavoritesCount([m, m]) == 2
    ensures Ids([m, m]) == {m.imdb_id}
  {
    assert [m, m][0] == m && [m, m][1] == m;
  }

  /** Toggling a record that is not a favorite twice gives back the same collection. */
  lemma ToggleTwiceRestores(favs: seq<Movie>, m: Movie)
    requires !HasId(favs, m.imdb_id)
    ensures ToggleFavorite(ToggleFavorite(favs, m), m) == favs
  {
    var once := favs + [m];
    assert once[|favs|].imdb_id == m.imdb_id;
    assert FindId(once, m.imdb_id) == Some(|favs|);
    assert once[..|favs|] == favs;
  }

  /** Toggling twice always gives back the id's membership, present or not. */
  lemma ToggleTwiceRestoresMembership(favs: seq<Movie>, m: Movie)
    requires UniqueIds(favs)
    ensures HasId(ToggleFavorite(ToggleFavorite(favs, m), m), m.imdb_id) == HasId(favs, m.imdb_id)
  {
    if !HasId(favs, m.imdb_id) {
      ToggleTwiceRestores(favs, m);
    }
  }

  /** The count follows the mutations: add grows it by one for a new id, remove shrinks it by one for a present id. */
  lemma CountFollowsMutations(favs: seq<Movie>, m: Movie, id: string)
    ensures FavoritesCount(AddFavorite(favs, m))
         == FavoritesCount(favs) + (if HasId(favs, m.imdb_id) then 0 else 1)
    ensures FavoritesCount(RemoveFavorite(favs, id))
         == FavoritesCount(favs) - (if HasId(favs, id) then 1 else 0)
  {
  }
}
