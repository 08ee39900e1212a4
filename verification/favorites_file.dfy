/**
 The favorites file: each record saved as a JSON object of thirteen named
 members (the twelve strings and `hasDetails`, but not `fetching`), the
 collection as an array of such objects in collection order, and the load
 that rebuilds the collection from it.

 File handles, the JSON text and its pretty-printing are not modelled: the
 file is either missing, unparsable, or a parsed array of objects.
 */
module FavoritesFile {
  import opened Text
  import opened MovieRecord
  import opened Favorites

  /** A JSON member value; `JOther` stands for numbers, null, arrays and objects. */
  datatype JsonValue = JString(s: string) | JBool(b: bool) | JOther

  type JsonObject = map<string, JsonValue>

  /** What opening and parsing the favorites file gives. */
  datatype StoredFile = Missing | Unparsable | Document(items: seq<JsonObject>)

  /** The member names a saved record carries. */
  const MemberNames: set<string> := {
    "title", "year", "imdb_id", "poster_url", "type", "plot", "rating",
    "actors", "director", "genre", "runtime", "released", "hasDetails"
  }

  /** The object `saveFavoritesToFile` writes for one record. */
  function ToJson(m: Movie): (o: JsonObject)
    ensures o.Keys == MemberNames
    ensures "fetching" !in o
  {
    map[
      "title" := JString(m.title),
      "year" := JString(m.year),
      "imdb_id" := JString(m.imdb_id),
      "poster_url" := JString(m.poster_url),
      "type" := JString(m.kind),
      "plot" := JString(m.plot),
      "rating" := JString(m.rating),
      "actors" := JString(m.actors),
      "director" := JString(m.director),
      "genre" := JString(m.genre),
      "runtime" := JString(m.runtime),
      "released" := JString(m.released),
      "hasDetails" := JBool(m.hasDetails)
    ]
  }

  /** A string member; a missing member or one of another type makes the load throw. */
  function StringMember(o: JsonObject, key: string): Option<string>
  {
    if key in o && o[key].JString? then Some(o[key].s) else None
  }

  function BoolMember(o: JsonObject, key: string): Option<bool>
  {
    if key in o && o[key].JBool? then Some(o[key].b) else None
  }

  /** The record `loadFavoritesFromFile` rebuilds from one object, if every member converts. */
  function FromJson(o: JsonObject): (r: Option<Movie>)
    ensures r.Some? ==> !r.value.fetching && MemberNames <= o.Keys
  {
    var title := StringMember(o, "title");
    var year := StringMember(o, "year");
    var id := StringMember(o, "imdb_id");
    var poster := StringMember(o, "poster_url");
    var kind := StringMember(o, "type");
    var plot := StringMember(o, "plot");
    var rating := StringMember(o, "rating");
    var actors := StringMember(o, "actors");
    var director := StringMember(o, "director");
    var genre := StringMember(o, "genre");
    var runtime := StringMember(o, "runtime");
    var released := StringMember(o, "released");
    var details := BoolMember(o, "hasDetails");
    if && title.Some? && year.Some? && id.Some? && poster.Some? && kind.Some?
       && plot.Some? && rating.Some? && actors.Some? && director.Some?
       && genre.Some? && runtime.Some? && released.Some? && details.Some?
    then Some(Movie(title.value, year.value, id.value, actors.value, poster.value,
                    plot.value, rating.value, director.value, genre.value,
                    runtime.value, kind.value, released.value, false, details.value))
    else None
  }

  /**
   A record is rebuilt exactly when every member is present with the right
   type: a string for the twelve text fields, a boolean for `hasDetails`.
   */
  lemma FromJsonNeedsEveryMember(o: JsonObject)
    ensures FromJson(o).Some? <==>
      && (forall k :: k in MemberNames && k != "hasDetails" ==> StringMember(o, k).Some?)
      && BoolMember(o, "hasDetails").Some?
  {
    if (forall k :: k in MemberNames && k != "hasDetails" ==> StringMember(o, k).Some?) {
      assert StringMember(o, "title").Some? && StringMember(o, "year").Some?;
      assert StringMember(o, "imdb_id").Some? && StringMember(o, "poster_url").Some?;
      assert StringMember(o, "type").Some? && StringMember(o, "plot").Some?;
      assert StringMember(o, "rating").Some? && StringMember(o, "actors").Some?;
      assert StringMember(o, "director").Some? && StringMember(o, "genre").Some?;
      assert StringMember(o, "runtime").Some? && StringMember(o, "released").Some?;
    }
  }

  /** A rebuilt record saves back to the same thirteen members it was read from. */
  lemma LoadedRecordSavesBack(o: JsonObject)
    requires FromJson(o).Some?
    ensures forall k :: k in MemberNames ==> ToJson(FromJson(o).value)[k] == o[k]
  {
  }

  /** Loading a saved record gives it back, except that it is no longer being fetched. */
  lemma FromToJson(m: Movie)
    ensures FromJson(ToJson(m)) == Some(m.(fetching := false))
  {
  }

  /** The array `saveFavoritesToFile` writes: one object per record, in collection order. */
  function SaveDocument(favs: seq<Movie>): (items: seq<JsonObject>)
    ensures |items| == |favs|
    ensures forall i :: 0 <= i < |favs| ==> items[i] == ToJson(favs[i])
  {
    seq(|favs|, i requires 0 <= i < |favs| => ToJson(favs[i]))
  }

  /**
   The records rebuilt from the array, in order, up to the first object that
   does not convert: the load has already cleared the collection when that
   object throws, so the records before it are what remains.
   */
  function DecodeItems(items: seq<JsonObject>): (r: seq<Movie>)
    ensures |r| <= |items|
    ensures forall i :: 0 <= i < |r| ==> FromJson(items[i]) == Some(r[i])
    ensures |r| < |items| ==> FromJson(items[|r|]).None?
    decreases |items|
  {
    if |items| == 0 then []
    else match FromJson(items[0])
      case None => []
      case Some(m) =>
        var rest := DecodeItems(items[1..]);
        [m] + rest
  }

  /**
   `loadFavoritesFromFile`: a missing or unparsable file leaves the collection
   as it was; a parsed array replaces it wholesale, with no de-duplication.
   */
  function LoadFavorites(favs: seq<Movie>, file: StoredFile): (r: seq<Movie>)
    ensures !file.Document? ==> r == favs
    ensures file.Document? ==> r == DecodeItems(file.items)
  {
    match file
    case Missing => favs
    case Unparsable => favs
    case Document(items) => DecodeItems(items)
  }

  /** The collection with every in-flight mark cleared. */
  function NotFetching(favs: seq<Movie>): (r: seq<Movie>)
    ensures |r| == |favs|
    ensures forall i :: 0 <= i < |favs| ==> r[i] == favs[i].(fetching := false)
  {
    seq(|favs|, i requires 0 <= i < |favs| => favs[i].(fetching := false))
  }

  /**
   Saving then loading rebuilds the same records in the same order, whatever
   the collection held before the load; only `fetching` is not kept.
   */
  lemma {:induction false} SaveLoadRoundTrip(before: seq<Movie>, favs: seq<Movie>)
    ensures LoadFavorites(before, Document(SaveDocument(favs))) == NotFetching(favs)
  {
    DecodeSaved(favs);
  }

  lemma {:induction false} DecodeSaved(favs: seq<Movie>)
    ensures DecodeItems(SaveDocument(favs)) == NotFetching(favs)
    decreases |favs|
  {
    if |favs| > 0 {
      var items := SaveDocument(favs);
      FromToJson(favs[0]);
      assert FromJson(items[0]) == Some(favs[0].(fetching := false));
      assert items[1..] == SaveDocument(favs[1..]);
      DecodeSaved(favs[1..]);
      assert DecodeItems(items) == [favs[0].(fetching := false)] + DecodeItems(items[1..]);
      assert NotFetching(favs) == [favs[0].(fetching := false)] + NotFetching(favs[1..]);
    }
  }

  /** Clearing `fetching` keeps the ids, so it keeps them unique. */
  lemma NotFetchingKeepsIds(favs: seq<Movie>, id: string)
    ensures UniqueIds(favs) ==> UniqueIds(NotFetching(favs))
    ensures HasId(NotFetching(favs), id) <==> HasId(favs, id)
  {
    var r := NotFetching(favs);
    if HasId(favs, id) {
      var i :| 0 <= i < |favs| && favs[i].imdb_id == id;
      assert r[i].imdb_id == id;
    }
    if HasId(r, id) {
      var i :| 0 <= i < |r| && r[i].imdb_id == id;
      assert favs[i].imdb_id == id;
    }
  }

  /**
   Adding a record and reloading what the flush wrote gives a collection
   holding exactly one record with that id.
   */
  lemma AddThenReload(favs: seq<Movie>, m: Movie, before: seq<Movie>)
    requires UniqueIds(favs)
    ensures var loaded := LoadFavorites(before, Document(SaveDocument(AddFavorite(favs, m))));
      && HasId(loaded, m.imdb_id)
      && UniqueIds(loaded)
      && |loaded| == |AddFavorite(favs, m)|
  {
    var added := AddFavorite(favs, m);
    SaveLoadRoundTrip(before, added);
    NotFetchingKeepsIds(added, m.imdb_id);
  }
}
