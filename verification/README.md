# Movie search: a Dafny model of the search service, favorites and sorting

This project models the core of a desktop movie-search client that queries
the OMDb web API. Three parts are covered:

- **The search service** (`MovieSearchService.cpp`):
  - the query encoder (`encode_query`) and the case-insensitive genre filter (`checkGenreMatch`);
  - the search request path;
  - how `searchMovies` turns the provider's reply into a result list and a status line: title lookup, list search, and list search with a genre filter that makes one detail request per hit;
  - `fetchMovieDetails` as a transition of one record.
- **The favorites collection** (`MovieFavorites.cpp`):
  - membership, de-duplicated add, remove-first, toggle and count;
  - the thirteen-member JSON object saved per record;
  - the load that rebuilds the collection from the saved array.
- **The app's list handling** (`movie_search_app.cpp`):
  - the runtime reader `extractRuntime`;
  - the Title, Year, Released and Runtime sort comparators and `sortMovies` (the Rating comparator is left out);
  - the check run on the optional year box.

Everything is a pure function over immutable values:

- A record is the `Movie` datatype, with the fields in the order of `movie.h`. The C++ member `type` is called `kind`.
- The provider is a function from request path to reply. A reply is either nothing (no response), or an HTTP status with a body. The body is either malformed, carrying the parser's message, or a parsed object. A parsed object has its string members and its `Search` array of hits.
- The favorites file is missing, unparsable, or a parsed array of objects.
- A `char` of a `string` stands for one byte of a `std::string`.
- `std::string::find`, `operator<` on strings, `std::stoi`, `std::to_string`, and C-locale `isalnum`, `isspace` and `tolower` are defined in `text.dfy`, with contracts of their own.

Modules, one per file:

| file | module | models |
|---|---|---|
| `text.dfy` | `Text` | the standard-library string operations the code relies on |
| `movie.dfy` | `MovieRecord` | the `Movie` record |
| `query_encoding.dfy` | `QueryEncoding` | `encode_query`, with a decoder as its partner |
| `provider.dfy` | `Provider` | replies and `json::value` lookups |
| `requests.dfy` | `Requests` | the search and detail request paths, with a parser as partner |
| `search_service.dfy` | `SearchService` | `checkGenreMatch` and `searchMovies` |
| `detail_fetch.dfy` | `DetailFetch` | `fetchMovieDetails` |
| `favorites.dfy` | `Favorites` | the in-memory favorites collection |
| `favorites_file.dfy` | `FavoritesFile` | save and load of the favorites file |
| `sorting.dfy` | `Sorting` | `extractRuntime` and `sortMovies` |
| `year_input.dfy` | `YearInput` | the year-box validation |

## Model

| member | source | states |
|---|---|---|
| QueryEncoding.EncodeChar | MovieSearchService.cpp:15-26 | a letter, digit or `-` is kept; a space becomes `+`; any other byte becomes `%` followed by two upper-case hex digits whose value is the byte read as unsigned |
| QueryEncoding.EncodeQuery | MovieSearchService.cpp:12-29 | the encoding is the query's length plus two per escaped byte, and contains only letters, digits, `-`, `+` and `%` |
| QueryEncoding.EncodeQueryConcat | MovieSearchService.cpp:14-27 | the encoding of a concatenation is the concatenation of the encodings |
| QueryEncoding.DecodeEncode | MovieSearchService.cpp:12-29 | decoding the encoded query gives the query back, for every byte string |
| QueryEncoding.EncodeQueryInjective | MovieSearchService.cpp:12-29 | two different queries never encode to the same text |
| QueryEncoding.EncodePlain | MovieSearchService.cpp:15-18 | a query made only of letters, digits and `-` is sent unchanged |
| Requests.SearchPath | MovieSearchService.cpp:68-74 | the search path is the credential prefix, then `t=` for a title lookup or `s=` for a list search, then the encoded query followed by `&y=` and the year only when the year has four characters |
| Requests.DetailPath | MovieSearchService.cpp:120 | the detail path is the credential prefix and `i=`, then the id exactly as given, then `&plot=full` |
| Requests.DetailPathInjective | MovieSearchService.cpp:180 | different ids are requested on different detail paths |
| Requests.QueryAndYearRoundTrip | MovieSearchService.cpp:69-74 | the encoded query and the optional `&y=` suffix can be read back from the tail of the path |
| Requests.SearchPathRoundTrip | MovieSearchService.cpp:68-74 | the search path determines the mode (`t=` title lookup or `s=` list search) and the query; it carries the year exactly when the year is four characters long |
| SearchService.CheckGenreMatch | MovieSearchService.cpp:31-43 | an empty filter matches every genre; otherwise the result is true exactly when the filter occurs, ignoring case, at some position of the genre |
| SearchService.GenreMatchIgnoresCase | MovieSearchService.cpp:35-42 | the genre match depends only on the case-folded genre and filter |
| SearchService.GenreMatchExamples | MovieSearchService.cpp:31-43 | "Action, Drama" matches "drama"; "Comedy" does not match "Action" |
| SearchService.ExactRecord | MovieSearchService.cpp:85-98 | a title-lookup record takes each field from the reply member of that name, or the listed default; it has its details |
| SearchService.SummaryRecord | MovieSearchService.cpp:108-114 | a list-search record takes title, year, id, poster and type from the hit with their defaults; the seven detail fields are empty; it is neither fetching nor complete |
| SearchService.EnrichedRecord | MovieSearchService.cpp:125-133 | the completed record keeps the summary fields and takes genre, plot, rating, actors, director, runtime and released from the detail reply with default "N/A"; it has its details |
| SearchService.DetailMatch | MovieSearchService.cpp:119-134 | a hit contributes a record exactly when its detail reply has status 200, parses, reports success and its fetched genre matches; the record is the hit's summary completed from that reply |
| SearchService.GatherByGenre | MovieSearchService.cpp:107-141 | the genre-filtered loop keeps an in-order selection of the hits; each kept record has details and a matching genre; the loop reports a parse failure exactly when some hit's detail reply is malformed |
| SearchService.GatherKeepsEveryMatch | MovieSearchService.cpp:122-134 | every hit before the first malformed detail reply whose detail reply succeeds with a matching genre has its completed record kept |
| SearchService.GatherKeepsOnlyMatches | MovieSearchService.cpp:122-134 | every kept record is the completed record of some hit whose detail reply succeeded with a matching genre |
| SearchService.GatherCons | MovieSearchService.cpp:116-141 | a hit whose detail reply is not malformed puts its record, when it matches, in front of what the remaining hits yield, and the outcome of the remaining hits is kept |
| SearchService.GatherIsContributions | MovieSearchService.cpp:116-141 | with no malformed detail reply the loop yields exactly one record per matching hit, in the hits' order, as the independently defined join of per-hit contributions gives |
| SearchService.RepeatedHitCountsTwice | MovieSearchService.cpp:122-134 | a matching hit listed twice yields its record twice |
| SearchService.GatherStopsAtMalformedDetail | MovieSearchService.cpp:107-152 | the first malformed detail reply ends the loop; the records kept are those gathered from the hits before it, and its parser message is reported |
| SearchService.AssembleResults | MovieSearchService.cpp:76-156 | no reply or a non-200 status gives "Request failed!"; a malformed body gives the parse-error status; a reply without `"Response": "True"` gives "No results found"; title lookups and unfiltered list searches report "Found N results" with N the number of results; records appear only for a successful reply |
| SearchService.SearchMovies | MovieSearchService.cpp:45-165 | an empty query gives "Empty search query" with no request; otherwise the search path for the query, year and mode is requested and its reply assembled |
| SearchService.ExactMatchResults | MovieSearchService.cpp:83-103 | a successful title lookup gives at most one record, with details; it is present exactly when its genre matches the filter |
| SearchService.ListSearchWithoutGenre | MovieSearchService.cpp:104-142 | a successful list search without a genre gives, in order, exactly the summary record of each hit: the seven detail fields are empty, and it is neither complete nor fetching |
| SearchService.ListSearchWithGenreCounts | MovieSearchService.cpp:116-156 | with no malformed detail reply the results are exactly one record per matching hit, in order, and the status is "Found N results" with N that number; otherwise the results are the records of the matching hits before the first malformed one |
| SearchService.ListSearchWithGenre | MovieSearchService.cpp:116-156 | with a genre, the records are an in-order selection of the hits, all with details and matching genre; every matching hit before the first malformed detail reply has its record among the results, and every result is the record of some matching hit; the status is "Found N results" when no detail reply is malformed, else the first malformed reply's parse error, with the records gathered before it |
| SearchService.SearchStatusIsTerminal | MovieSearchService.cpp:144-163 | the callback always receives one of the final statuses, never "Searching..." |
| DetailFetch.BeginFetch | MovieSearchService.cpp:174-177 | starting a fetch marks the record as fetching and changes nothing else |
| DetailFetch.FinishFetch | MovieSearchService.cpp:182-206 | afterwards the record is not fetching and keeps its summary fields; a successful reply fills the seven detail fields and sets `hasDetails`; any other reply leaves the record as it was |
| DetailFetch.FetchMovieDetails | MovieSearchService.cpp:167-210 | nothing happens exactly when the record has details or is being fetched; otherwise the callback receives a record that is not fetching and has the same summary |
| DetailFetch.FetchIsIdempotent | MovieSearchService.cpp:170-195 | a record whose details arrived is never fetched again |
| DetailFetch.FetchNeverLeavesBothFlags | MovieSearchService.cpp:170-206 | a delivered record is never both fetching and complete |
| Favorites.FindId | MovieFavorites.cpp:26-27 | the index found is that of the first record with the id; none means no record has it |
| Favorites.IsFavorite | MovieFavorites.cpp:36-39 | true exactly when some record has the id |
| Favorites.AddFavorite | MovieFavorites.cpp:13-21 | a present id leaves the collection unchanged; a new id appends the record at the end; the id is present afterwards; unique ids stay unique |
| Favorites.RemoveFavorite | MovieFavorites.cpp:23-34 | an absent id leaves the collection unchanged; otherwise exactly the first record with the id is erased and the others keep their order; with unique ids, the id is gone afterwards |
| Favorites.ToggleFavorite | MovieFavorites.cpp:134-141 | toggling a present id removes it; toggling an absent one appends the record |
| Favorites.ToggleTwiceRestores | MovieFavorites.cpp:134-141 | toggling an absent record twice gives back the original collection |
| Favorites.ToggleTwiceRestoresMembership | MovieFavorites.cpp:134-141 | with unique ids, toggling twice restores whether the id is a favorite |
| Favorites.UniqueIdsCount | MovieFavorites.cpp:16-17 | in a collection with unique ids there are as many distinct ids as records |
| Favorites.FavoritesCount | MovieFavorites.cpp:143-146 | the count is the number of records, duplicates included; with unique ids it is the number of distinct favorite ids, and it is 0 exactly when no id is a favorite |
| Favorites.CountIncludesRepeatedIds | MovieFavorites.cpp:143-146 | a collection holding the same record twice counts 2, though it has one distinct id |
| Favorites.CountFollowsMutations | MovieFavorites.cpp:143-146 | the count grows by one on adding a new id, shrinks by one on removing a present id, and otherwise stays put |
| FavoritesFile.ToJson | MovieFavorites.cpp:98-114 | the saved object has exactly the thirteen member names and no `fetching` |
| FavoritesFile.FromJson | MovieFavorites.cpp:50-64 | a rebuilt record is not fetching, and all thirteen member names are present in the object it came from |
| FavoritesFile.FromJsonNeedsEveryMember | MovieFavorites.cpp:50-64 | an object converts exactly when the twelve text members are strings and `hasDetails` is a boolean |
| FavoritesFile.LoadedRecordSavesBack | MovieFavorites.cpp:50-64 | a rebuilt record saves back to the same thirteen member values it was read from |
| FavoritesFile.FromToJson | MovieFavorites.cpp:49-65 | the object saved for a record loads back as that record, except that it is not fetching |
| FavoritesFile.SaveDocument | MovieFavorites.cpp:94-116 | the saved array holds one object per record, in collection order |
| FavoritesFile.DecodeItems | MovieFavorites.cpp:47-65 | the load keeps, in order, the records of the objects before the first one that fails to convert |
| FavoritesFile.LoadFavorites | MovieFavorites.cpp:41-71 | a missing or unparsable file leaves the collection as it was; a parsed array replaces it |
| FavoritesFile.SaveLoadRoundTrip | MovieFavorites.cpp:41-122 | saving and then loading gives the same records in the same order, whatever the collection held before; only `fetching` is not kept |
| FavoritesFile.DecodeSaved | MovieFavorites.cpp:49-113 | the records decoded from a saved array are the saved records with `fetching` cleared |
| FavoritesFile.NotFetchingKeepsIds | MovieFavorites.cpp:98-113 | clearing `fetching` keeps every id, so unique ids stay unique |
| FavoritesFile.AddThenReload | MovieFavorites.cpp:13-21 | adding a record and reloading the flushed file gives a collection with that id, unique ids, and the added size |
| Sorting.ExtractRuntime | movie_search_app.cpp:19-32 | no " min" gives 0; a prefix with no number gives 0; otherwise the number read from the text before the first " min" |
| Sorting.MinutesMarkerAfter | movie_search_app.cpp:22 | in a word without spaces followed by " min", the first " min" found is the appended one |
| Sorting.ExtractRuntimeOfMinutes | movie_search_app.cpp:19-25 | "<digits> min" reads as the value of the digits |
| Sorting.ExtractRuntimeOfWord | movie_search_app.cpp:19-30 | a word that does not start like a number, followed by " min", reads as 0 |
| Sorting.ExtractRuntimeOfShortText | movie_search_app.cpp:22-31 | text too short to hold " min", such as "N/A" or "", reads as 0 |
| Sorting.ExtractRuntimeExample142 | movie_search_app.cpp:19-32 | "142 min" reads as 142 |
| Sorting.ExtractRuntimeExampleWord | movie_search_app.cpp:19-30 | "abc min" reads as 0 |
| Sorting.ReleasedKey | movie_search_app.cpp:69-70 | the Released key is the last four characters, or "0000" for shorter text |
| Sorting.Before | movie_search_app.cpp:42-79 | each comparator as written is the strict key order, run upwards for Title and downwards for Year, Released and Runtime when `ascending` is true; a Year comparison with a year that does not parse is false |
| Sorting.BeforeIsStrictWeakOrder | movie_search_app.cpp:41-79 | on records with usable keys each comparator is a strict weak ordering, as `std::sort` needs: irreflexive, asymmetric, transitive, and records it cannot tell apart have equal keys |
| Sorting.InsertionSort | movie_search_app.cpp:41-79 | the sort keeps the multiset of records |
| Sorting.InsertionSortOrdered | movie_search_app.cpp:41-79 | the sort never leaves a record after one it should precede |
| Sorting.SortMovies | movie_search_app.cpp:34-86 | `sortMovies` returns a permutation of the list that the selected comparator never finds out of order |
| Sorting.SortedDirection | movie_search_app.cpp:41-79 | with `ascending` true, titles come out non-decreasing, but years, release keys and runtimes come out non-increasing; with `ascending` false, the reverse |
| Sorting.YearAscendingAsWritten | movie_search_app.cpp:47-54 | with `ascending` true, two records with different years come out later year first |
| Sorting.YearAscendingCounterexample | movie_search_app.cpp:47-54 | sorting a 1999 and a 2001 record by year with `ascending` true puts 2001 first |
| Sorting.SortMoviesIntended | movie_search_app.h:27 | the corrected sort returns a permutation whose keys are non-decreasing when `ascending` is true and non-increasing otherwise, for every criterion |
| Sorting.IntendedMatchesTitleOnly | movie_search_app.cpp:41-79 | the corrected sort agrees with the code for Title and is the code's sort with the flag inverted for the other criteria |
| YearInput.ValidateYearInput | movie_search_app.cpp:124-136 | an empty box is valid; a valid entry stays in the box; an invalid one clears it; an accepted non-empty entry is four characters reading as 1888..2024 |
| YearInput.AcceptedYearsAreFourDigits | movie_search_app.cpp:124-136 | a non-empty entry is accepted exactly when it is four plain digits worth 1888 to 2024: no sign, no white space, no trailing text |
| YearInput.BoxHoldsOnlyAcceptedEntries | movie_search_app.cpp:124-136 | after any edit, the box holds nothing or an entry that would be accepted |
| YearInput.YearInputExamples | movie_search_app.cpp:124-136 | "1999" is kept; "1887", "2025" and "199" are rejected and cleared |
| YearInput.YearInputSignedExample | movie_search_app.cpp:124-136 | "-999" is rejected and cleared |

## Left out

- Threads, mutexes, `detach`, the `m_isSearching` flag and the completion callbacks are not modelled; each operation is the value its callback would receive.
- The HTTP client and the JSON parser are abstracted into `Reply` and `Body`. The provider is assumed to answer the same path with the same reply.
- Response members are strings in the model. A provider member of another JSON type, which makes `json::value` throw, is not modelled.
- Logging to `std::cout` is not modelled.
- The Rating sort is left out because it converts with `std::stof`, which is floating point; `Sortable` excludes it.
- Sorting.SortMovies: requires every year to parse when sorting by Year. An unparsable year makes the comparator return false, so it is no longer a strict weak order, and `std::sort` then has undefined behaviour.
- Sorting.SortMovies: keeps equal keys in one admissible order. `std::sort` does not specify that order, and the contract states only what every admissible result shares.
- Sorting.ExtractRuntime: requires the number before " min" to fit in an `int`. `std::out_of_range` is not caught there, so the sort thread would terminate.
- YearInput.ValidateYearInput: requires at most four characters, because the box is a five-byte buffer. A larger buffer would let `std::stoi` overflow; this model does not cover that.
- `getSortCriteriaName`, rendering, themes, the poster and link buttons, and the window set-up in `main.cpp` and `main_window.cpp` are not modelled: they are user interface.
- `loadFavoritesAsync` and `saveFavoritesAsync` are not modelled. A flush requested while one is running is dropped in the code; the model assumes the flush writes the current collection.
- The destructor's wait for a running save is not modelled.
- FavoritesFile.DecodeItems: treats a missing member like a member of the wrong type: both end the load. In the code, `operator[]` on a missing key of a const `json` is undefined behaviour.
- A favorites file whose top level is a JSON object rather than an array is not modelled.
- The detail request path is built without encoding the id, as in the code; ids are taken as given.
- QueryEncoding.EncodeChar: reads every byte as unsigned, so a byte of 0x80 or above (a UTF-8 "é", say) is not alphanumeric and is escaped by its unsigned value. The code passes a plain `char` to `isalnum`. Where `char` is signed, as with the Windows compiler this program targets, such a byte arrives as a negative value. For a negative value `isalnum` is undefined, and the debug runtime asserts.
- SearchService.CheckGenreMatch: folds only the ASCII capitals and leaves bytes of 0x80 or above unchanged. The code hands those bytes to `::tolower` as negative values where `char` is signed, which is undefined behaviour.

## Findings

| source | as written | input that shows it | evidently intended | confidence | as-written member | corrected member |
|---|---|---|---|---|---|---|
| movie_search_app.cpp:47-54 | when `ascending` is true, the Year comparator returns `stoi(a.year) > stoi(b.year)`. Released and Runtime, at lines 66-79, have the same polarity. | records from "1999" and "2001", sorted by Year with `ascending` true, come out 2001 then 1999 | ascending order by year, as the Title comparator gives; the flag is documented as "true for ascending" at movie_search_app.h:27, and while it is true the direction button at movie_search_app.cpp:228 offers "Sort Descending" | medium: newest-first may have been deliberate; not executed | Sorting.YearAscendingCounterexample | Sorting.SortMoviesIntended |
