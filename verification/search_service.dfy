/**
 The catalog search: the genre filter, the records built from provider
 replies, and the mapping from a search request and the provider's replies
 to the `(results, status)` pair the completion callback receives.

 The background thread, the `m_isSearching` flag and the callback itself are
 not modelled: `SearchMovies` returns what the callback is handed.
 */
module SearchService {
  import opened Text
  import opened MovieRecord
  import opened Provider
  import opened Requests

  // ---------------------------------------------------------------------
  // Genre filter

  /** `search` matches `genre` at `i`, letter case aside. */
  ghost predicate MatchesIgnoringCaseAt(genre: string, search: string, i: int) {
    && 0 <= i && i + |search| <= |genre|
    && forall k :: 0 <= k < |search| ==> ToLowerChar(genre[i + k]) == ToLowerChar(search[k])
  }

  /** `search` occurs somewhere in `genre`, letter case aside. */
  ghost predicate ContainsIgnoringCase(genre: string, search: string) {
    exists i :: MatchesIgnoringCaseAt(genre, search, i)
  }

  lemma LowerOccursAt(genre: string, search: string, i: int)
    ensures OccursAt(Lower(genre), Lower(search), i) <==> MatchesIgnoringCaseAt(genre, search, i)
  {
    var g, s := Lower(genre), Lower(search);
    if MatchesIgnoringCaseAt(genre, search, i) {
      assert g[i..i + |s|] == s;
    }
    if OccursAt(g, s, i) {
      forall k | 0 <= k < |search|
        ensures ToLowerChar(genre[i + k]) == ToLowerChar(search[k])
      {
        assert g[i..i + |s|][k] == s[k];
      }
    }
  }

  /**
   `checkGenreMatch`: an empty requested genre matches everything; otherwise
   the requested genre must occur in the record's genre, letter case aside.
   */
  function CheckGenreMatch(movieGenre: string, searchGenre: string): (r: bool)
    ensures |searchGenre| == 0 ==> r
    ensures r <==> ContainsIgnoringCase(movieGenre, searchGenre)
  {
    if |searchGenre| == 0 then
      assert MatchesIgnoringCaseAt(movieGenre, searchGenre, 0);
      true
    else
      var found := Find(Lower(movieGenre), Lower(searchGenre));
      assert found.Some? ==> MatchesIgnoringCaseAt(movieGenre, searchGenre, found.value) by {
        if found.Some? {
          LowerOccursAt(movieGenre, searchGenre, found.value);
        }
      }
      assert ContainsIgnoringCase(movieGenre, searchGenre) ==> found.Some? by {
        if ContainsIgnoringCase(movieGenre, searchGenre) {
          var i :| MatchesIgnoringCaseAt(movieGenre, searchGenre, i);
          LowerOccursAt(movieGenre, searchGenre, i);
        }
      }
      found.Some?
  }

  /** Changing the case of letters in either argument does not change the verdict. */
  lemma GenreMatchIgnoresCase(genre: string, genre': string, search: string, search': string)
    requires SameIgnoringCase(genre, genre') && SameIgnoringCase(search, search')
    ensures CheckGenreMatch(genre, search) == CheckGenreMatch(genre', search')
  {
    if ContainsIgnoringCase(genre, search) {
      var i :| MatchesIgnoringCaseAt(genre, search, i);
      assert MatchesIgnoringCaseAt(genre', search', i);
    }
    if ContainsIgnoringCase(genre', search') {
      var i :| MatchesIgnoringCaseAt(genre', search', i);
      assert MatchesIgnoringCaseAt(genre, search, i);
    }
  }

  // ---------------------------------------------------------------------
  // Records built from replies

  /** The record a title lookup builds from the reply's top-level members. */
  function ExactRecord(f: Fields): (m: Movie)
    ensures m.hasDetails && !m.fetching
    ensures m.title == Value(f, "Title", "Unknown Title")
    ensures m.year == Value(f, "Year", "N/A")
    ensures m.imdb_id == Value(f, "imdbID", "")
    ensures m.poster_url == Value(f, "Poster", "N/A")
    ensures m.kind == Value(f, "Type", "unknown")
    ensures m.plot == Value(f, "Plot", "N/A")
    ensures m.rating == Value(f, "imdbRating", "N/A")
    ensures m.actors == Value(f, "Actors", "N/A")
    ensures m.director == Value(f, "Director", "N/A")
    ensures m.genre == Value(f, "Genre", "N/A")
    ensures m.runtime == Value(f, "Runtime", "N/A")
    ensures m.released == Value(f, "Released", "N/A")
  {
    Blank.(
      title := Value(f, "Title", "Unknown Title"),
      year := Value(f, "Year", "N/A"),
      imdb_id := Value(f, "imdbID", ""),
      poster_url := Value(f, "Poster", "N/A"),
      kind := Value(f, "Type", "unknown"),
      plot := Value(f, "Plot", "N/A"),
      rating := Value(f, "imdbRating", "N/A"),
      actors := Value(f, "Actors", "N/A"),
      director := Value(f, "Director", "N/A"),
      genre := Value(f, "Genre", "N/A"),
      runtime := Value(f, "Runtime", "N/A"),
      released := Value(f, "Released", "N/A"),
      hasDetails := true)
  }

  /** The record a list search builds from one hit: five summary fields, the rest left empty. */
  function SummaryRecord(hit: Fields): (m: Movie)
    ensures m.title == Value(hit, "Title", "Unknown Title")
    ensures m.year == Value(hit, "Year", "N/A")
    ensures m.imdb_id == Value(hit, "imdbID", "")
    ensures m.poster_url == Value(hit, "Poster", "N/A")
    ensures m.kind == Value(hit, "Type", "unknown")
    ensures m.plot == "" && m.rating == "" && m.actors == "" && m.director == ""
    ensures m.genre == "" && m.runtime == "" && m.released == ""
    ensures !m.fetching && !m.hasDetails
  {
    Blank.(
      title := Value(hit, "Title", "Unknown Title"),
      year := Value(hit, "Year", "N/A"),
      imdb_id := Value(hit, "imdbID", ""),
      poster_url := Value(hit, "Poster", "N/A"),
      kind := Value(hit, "Type", "unknown"))
  }

  /**
   A summary record completed with the detail members of a detail reply:
   the summary fields and `fetching` are kept, the seven detail fields come
   from the reply with their defaults, and the record has its details.
   */
  function EnrichedRecord(summary: Movie, detail: Fields): (m: Movie)
    ensures SameSummary(m, summary) && m.fetching == summary.fetching
    ensures m.hasDetails
    ensures m.genre == Value(detail, "Genre", "N/A")
    ensures m.plot == Value(detail, "Plot", "N/A")
    ensures m.rating == Value(detail, "imdbRating", "N/A")
    ensures m.actors == Value(detail, "Actors", "N/A")
    ensures m.director == Value(detail, "Director", "N/A")
    ensures m.runtime == Value(detail, "Runtime", "N/A")
    ensures m.released == Value(detail, "Released", "N/A")
  {
    summary.(
      genre := Value(detail, "Genre", "N/A"),
      plot := Value(detail, "Plot", "N/A"),
      rating := Value(detail, "imdbRating", "N/A"),
      actors := Value(detail, "Actors", "N/A"),
      director := Value(detail, "Director", "N/A"),
      runtime := Value(detail, "Runtime", "N/A"),
      released := Value(detail, "Released", "N/A"),
      hasDetails := true)
  }

  // ---------------------------------------------------------------------
  // List search with a genre filter: one detail request per hit

  /** The hits' records kept so far, and the parse error that stopped the loop, if any. */
  datatype Gathered = Gathered(movies: seq<Movie>, failure: Option<string>)

  /** The reply to the detail request for a hit's id. */
  function DetailReply(hit: Fields, network: Network): Reply
  {
    network(DetailPath(SummaryRecord(hit).imdb_id))
  }

  /** The detail reply for a hit arrived but could not be parsed: the loop stops there. */
  predicate DetailMalformed(hit: Fields, network: Network) {
    Arrived(DetailReply(hit, network)) && DetailReply(hit, network).body.Malformed?
  }

  /**
   The record a hit contributes: present exactly when its detail reply
   succeeds and the fetched genre matches, and then the hit's summary
   completed with the reply's detail members.
   */
  function DetailMatch(hit: Fields, genre: string, network: Network): (r: Option<Movie>)
    ensures r.Some? <==>
      Succeeded(DetailReply(hit, network))
      && CheckGenreMatch(Value(DetailReply(hit, network).body.payload.fields, "Genre", "N/A"), genre)
    ensures r.Some? ==>
      r.value == EnrichedRecord(SummaryRecord(hit), DetailReply(hit, network).body.payload.fields)
  {
    var reply := DetailReply(hit, network);
    if Succeeded(reply) && CheckGenreMatch(Value(reply.body.payload.fields, "Genre", "N/A"), genre)
    then Some(EnrichedRecord(SummaryRecord(hit), reply.body.payload.fields))
    else None
  }

  /** No hit up to and including hit `i` has a malformed detail reply. */
  predicate NoMalformedThrough(hits: seq<Fields>, network: Network, i: int) {
    forall j :: 0 <= j <= i && j < |hits| ==> !DetailMalformed(hits[j], network)
  }

  /**
   `ms` is an order-preserving selection from `hits`: each record carries the
   summary fields of a distinct hit, in the hits' order.
   */
  predicate SelectedInOrder(ms: seq<Movie>, hits: seq<Fields>)
    decreases |hits|
  {
    if |ms| == 0 then true
    else if |hits| == 0 then false
    else
      || (SameSummary(ms[0], SummaryRecord(hits[0])) && SelectedInOrder(ms[1..], hits[1..]))
      || SelectedInOrder(ms, hits[1..])
  }

  /** The genre-filtered loop over the hits (one detail request each). */
  function GatherByGenre(hits: seq<Fields>, genre: string, network: Network): (g: Gathered)
    ensures |g.movies| <= |hits|
    ensures SelectedInOrder(g.movies, hits)
    ensures forall i :: 0 <= i < |g.movies| ==>
      g.movies[i].hasDetails && !g.movies[i].fetching && CheckGenreMatch(g.movies[i].genre, genre)
    ensures g.failure.None? <==> forall i :: 0 <= i < |hits| ==> !DetailMalformed(hits[i], network)
    decreases |hits|
  {
    if |hits| == 0 then Gathered([], None)
    else if DetailMalformed(hits[0], network) then
      Gathered([], Some(DetailReply(hits[0], network).body.what))
    else
      var rest := GatherByGenre(hits[1..], genre, network);
      assert forall i :: 1 <= i < |hits| ==> hits[i] == hits[1..][i - 1];
      match DetailMatch(hits[0], genre, network)
      case None => Gathered(rest.movies, rest.failure)
      case Some(m) =>
        var ms := [m] + rest.movies;
        assert ms[1..] == rest.movies;
        Gathered(ms, rest.failure)
  }

  /**
   Every matching hit before the first malformed detail reply is kept: its
   summary completed with its detail reply is among the records.
   */
  lemma {:induction false} GatherKeepsEveryMatch(hits: seq<Fields>, genre: string, network: Network, i: nat)
    requires i < |hits| && NoMalformedThrough(hits, network, i)
    requires DetailMatch(hits[i], genre, network).Some?
    ensures DetailMatch(hits[i], genre, network).value in GatherByGenre(hits, genre, network).movies
    decreases i
  {
    if i > 0 {
      assert hits[1..][i - 1] == hits[i];
      assert NoMalformedThrough(hits[1..], network, i - 1) by {
        forall j | 0 <= j <= i - 1 && j < |hits| - 1
          ensures !DetailMalformed(hits[1..][j], network)
        {
          assert hits[1..][j] == hits[j + 1];
        }
      }
      GatherKeepsEveryMatch(hits[1..], genre, network, i - 1);
    }
  }

  /** Every record kept is the record of some matching hit. */
  lemma {:induction false} GatherKeepsOnlyMatches(hits: seq<Fields>, genre: string, network: Network, m: Movie)
    requires m in GatherByGenre(hits, genre, network).movies
    ensures exists i :: 0 <= i < |hits| && DetailMatch(hits[i], genre, network) == Some(m)
    decreases |hits|
  {
    if DetailMatch(hits[0], genre, network) != Some(m) {
      GatherKeepsOnlyMatches(hits[1..], genre, network, m);
      var k :| 0 <= k < |hits| - 1 && DetailMatch(hits[1..][k], genre, network) == Some(m);
      assert hits[k + 1] == hits[1..][k];
    }
  }

  /** The records one hit adds: its completed record when it matches, otherwise none. */
  function Contribution(hit: Fields, genre: string, network: Network): seq<Movie> {
    match DetailMatch(hit, genre, network)
    case None => []
    case Some(m) => [m]
  }

  /** The parts `f` gives each element, joined in order; built from the last element backwards. */
  function FlatMap<A, B>(f: A -> seq<B>, xs: seq<A>): seq<B>
    decreases |xs|
  {
    if |xs| == 0 then [] else FlatMap(f, xs[..|xs| - 1]) + f(xs[|xs| - 1])
  }

  /** Joining the parts of `a + b` is joining those of `a`, then those of `b`. */
  lemma {:induction false} FlatMapConcat<A, B>(f: A -> seq<B>, a: seq<A>, b: seq<A>)
    ensures FlatMap(f, a + b) == FlatMap(f, a) + FlatMap(f, b)
    decreases |b|
  {
    if |b| == 0 {
      assert a + b == a;
    } else {
      var front := b[..|b| - 1];
      assert (a + b)[..|a + b| - 1] == a + front;
      assert (a + b)[|a + b| - 1] == b[|b| - 1];
      FlatMapConcat(f, a, front);
    }
  }

  /**
   The reference for what a run of well-formed detail replies yields: every
   hit's contribution, once per hit, in the hits' order.
   */
  function Contributions(hits: seq<Fields>, genre: string, network: Network): seq<Movie> {
    FlatMap(hit => Contribution(hit, genre, network), hits)
  }

  /** A hit whose detail reply is not malformed adds its contribution in front of the rest. */
  lemma GatherCons(hit: Fields, rest: seq<Fields>, genre: string, network: Network)
    requires !DetailMalformed(hit, network)
    ensures GatherByGenre([hit] + rest, genre, network)
         == Gathered(Contribution(hit, genre, network) + GatherByGenre(rest, genre, network).movies,
                     GatherByGenre(rest, genre, network).failure)
  {
    var hits := [hit] + rest;
    assert hits[0] == hit && hits[1..] == rest;
  }

  /** Dropping the first hit keeps every detail reply well formed. */
  lemma WellFormedTail(hits: seq<Fields>, network: Network)
    requires |hits| > 0 && forall i :: 0 <= i < |hits| ==> !DetailMalformed(hits[i], network)
    ensures forall i :: 0 <= i < |hits| - 1 ==> !DetailMalformed(hits[1..][i], network)
  {
    forall i | 0 <= i < |hits| - 1
      ensures !DetailMalformed(hits[1..][i], network)
    {
      assert hits[1..][i] == hits[i + 1];
    }
  }

  /**
   With no malformed detail reply the loop keeps exactly the contributions:
   each matching hit once, so a hit listed twice yields its record twice.
   */
  lemma {:induction false} GatherIsContributions(hits: seq<Fields>, genre: string, network: Network)
    requires forall i :: 0 <= i < |hits| ==> !DetailMalformed(hits[i], network)
    ensures GatherByGenre(hits, genre, network).movies == Contributions(hits, genre, network)
    decreases |hits|
  {
    if |hits| > 0 {
      var h, t := hits[0], hits[1..];
      assert hits == [h] + t;
      WellFormedTail(hits, network);
      GatherIsContributions(t, genre, network);
      GatherCons(h, t, genre, network);
      FlatMapConcat(hit => Contribution(hit, genre, network), [h], t);
      assert Contributions([h], genre, network) == Contribution(h, genre, network) by {
        assert [h][..0] == [];
      }
    }
  }

  /** Two copies of a matching hit give two copies of its record. */
  lemma RepeatedHitCountsTwice(hit: Fields, genre: string, network: Network)
    requires !DetailMalformed(hit, network) && DetailMatch(hit, genre, network).Some?
    ensures var m := DetailMatch(hit, genre, network).value;
      GatherByGenre([hit, hit], genre, network) == Gathered([m, m], None)
  {
    assert [hit] + [] == [hit] && [hit] + [hit] == [hit, hit];
    GatherCons(hit, [], genre, network);
    GatherCons(hit, [hit], genre, network);
  }

  /**
   A malformed detail reply stops the loop: the records kept are exactly those
   of the hits before it, and its parser message is reported.
   */
  lemma {:induction false} GatherStopsAtMalformedDetail(hits: seq<Fields>, genre: string, network: Network, k: nat)
    requires k < |hits| && DetailMalformed(hits[k], network)
    requires forall j :: 0 <= j < k ==> !DetailMalformed(hits[j], network)
    ensures GatherByGenre(hits, genre, network).movies == GatherByGenre(hits[..k], genre, network).movies
    ensures GatherByGenre(hits, genre, network).failure
         == Some(DetailReply(hits[k], network).body.what)
    decreases k
  {
    if k > 0 {
      assert hits[1..][k - 1] == hits[k];
      assert hits[..k][1..] == hits[1..][..k - 1];
      assert hits[..k][0] == hits[0];
      GatherStopsAtMalformedDetail(hits[1..], genre, network, k - 1);
    }
  }

  // ---------------------------------------------------------------------
  // Result assembly

  /** What the completion callback receives. */
  datatype SearchResult = SearchResult(results: seq<Movie>, status: string)

  const EmptyQueryStatus: string := "Empty search query"
  const RequestFailedStatus: string := "Request failed!"
  const NoResultsStatus: string := "No results found"
  const ParseErrorPrefix: string := "Error parsing response: "

  /** `"Found " + std::to_string(n) + " results"`. */
  function FoundStatus(n: nat): string {
    "Found " + NatToDecimal(n) + " results"
  }

  /** The records of a list search without a genre: every hit, in order, without details. */
  function Summaries(hits: seq<Fields>): (ms: seq<Movie>)
    ensures |ms| == |hits|
    ensures forall i :: 0 <= i < |hits| ==> ms[i] == SummaryRecord(hits[i])
  {
    seq(|hits|, i requires 0 <= i < |hits| => SummaryRecord(hits[i]))
  }

  /** The results and status for the reply to a search request. */
  function AssembleResults(reply: Reply, genre: string, exactMatch: bool, network: Network): (r: SearchResult)
    ensures !Arrived(reply) ==> r == SearchResult([], RequestFailedStatus)
    ensures Arrived(reply) && reply.body.Malformed? ==>
      r == SearchResult([], ParseErrorPrefix + reply.body.what)
    ensures Arrived(reply) && reply.body.Json? && !ReportsSuccess(reply.body.payload) ==>
      r == SearchResult([], NoResultsStatus)
    ensures Succeeded(reply) && (exactMatch || |genre| == 0) ==>
      r.status == FoundStatus(|r.results|)
    ensures |r.results| > 0 ==> Succeeded(reply)
  {
    if !Arrived(reply) then SearchResult([], RequestFailedStatus)
    else match reply.body
      case Malformed(what) => SearchResult([], ParseErrorPrefix + what)
      case Json(payload) =>
        if !ReportsSuccess(payload) then SearchResult([], NoResultsStatus)
        else if exactMatch then
          var m := ExactRecord(payload.fields);
          var ms := if CheckGenreMatch(m.genre, genre) then [m] else [];
          SearchResult(ms, FoundStatus(|ms|))
        else if |genre| == 0 then
          var ms := Summaries(payload.search);
          SearchResult(ms, FoundStatus(|ms|))
        else
          var g := GatherByGenre(payload.search, genre, network);
          match g.failure
          case None => SearchResult(g.movies, FoundStatus(|g.movies|))
          case Some(what) => SearchResult(g.movies, ParseErrorPrefix + what)
  }

  /**
   `searchMovies`: an empty query is answered at once; otherwise the search
   path is requested and the reply assembled into results and a status.
   */
  function SearchMovies(query: string, year: string, genre: string, exactMatch: bool, network: Network): (r: SearchResult)
    ensures |query| == 0 ==> r == SearchResult([], EmptyQueryStatus)
    ensures |query| > 0 ==>
      r == AssembleResults(network(SearchPath(query, year, exactMatch)), genre, exactMatch, network)
  {
    if |query| == 0 then SearchResult([], EmptyQueryStatus)
    else AssembleResults(network(SearchPath(query, year, exactMatch)), genre, exactMatch, network)
  }

  // ---------------------------------------------------------------------
  // What each kind of search delivers

  /** The two worked examples of the genre filter. */
  lemma GenreMatchExamples()
    ensures CheckGenreMatch("Action, Drama", "drama")
    ensures !CheckGenreMatch("Comedy", "Action")
  {
    assert MatchesIgnoringCaseAt("Action, Drama", "drama", 8);
    forall i | 0 <= i && i + 6 <= 6
      ensures !MatchesIgnoringCaseAt("Comedy", "Action", i)
    {
      assert i == 0;
      assert ToLowerChar("Comedy"[i + 0]) != ToLowerChar("Action"[0]);
    }
  }

  /**
   A successful title lookup yields at most one record, with details, kept
   exactly when its genre matches the requested one.
   */
  lemma ExactMatchResults(reply: Reply, genre: string, network: Network)
    requires Succeeded(reply)
    ensures var r := AssembleResults(reply, genre, true, network);
      && |r.results| <= 1
      && (|r.results| == 1 <==> CheckGenreMatch(Value(reply.body.payload.fields, "Genre", "N/A"), genre))
      && (forall m :: m in r.results ==> m == ExactRecord(reply.body.payload.fields) && m.hasDetails)
      && r.status == FoundStatus(|r.results|)
  {
  }

  /**
   A successful list search without a genre yields every hit, in order, as a
   summary record: no details, detail fields left empty, not being fetched.
   */
  lemma ListSearchWithoutGenre(reply: Reply, network: Network)
    requires Succeeded(reply)
    ensures var r := AssembleResults(reply, "", false, network);
      var hits := reply.body.payload.search;
      && |r.results| == |hits|
      && (forall i :: 0 <= i < |hits| ==>
            && r.results[i] == SummaryRecord(hits[i])
            && r.results[i].title == Value(hits[i], "Title", "Unknown Title")
            && r.results[i].imdb_id == Value(hits[i], "imdbID", "")
            && !r.results[i].hasDetails && !r.results[i].fetching
            && r.results[i].plot == "" && r.results[i].rating == "" && r.results[i].actors == ""
            && r.results[i].director == "" && r.results[i].genre == "" && r.results[i].runtime == ""
            && r.results[i].released == "")
      && r.status == FoundStatus(|hits|)
  {
  }

  /** Hit `k` is the first hit whose detail reply could not be parsed. */
  predicate FirstMalformedDetail(hits: seq<Fields>, network: Network, k: int) {
    && 0 <= k < |hits| && DetailMalformed(hits[k], network)
    && forall j :: 0 <= j < k ==> !DetailMalformed(hits[j], network)
  }

  /**
   A successful list search with a genre keeps, in order, the hits whose
   detail reply matches, with details filled in. It reports "Found N
   results" unless a detail reply could not be parsed; then it reports the
   parse error and keeps the records gathered before that hit.
   */
  lemma ListSearchWithGenre(reply: Reply, genre: string, network: Network)
    requires Succeeded(reply) && |genre| > 0
    ensures SelectedInOrder(AssembleResults(reply, genre, false, network).results, reply.body.payload.search)
    ensures var r := AssembleResults(reply, genre, false, network);
      forall i :: 0 <= i < |r.results| ==> r.results[i].hasDetails && CheckGenreMatch(r.results[i].genre, genre)
    ensures var r := AssembleResults(reply, genre, false, network);
      var hits := reply.body.payload.search;
      forall i :: 0 <= i < |hits| && NoMalformedThrough(hits, network, i) && DetailMatch(hits[i], genre, network).Some? ==>
        DetailMatch(hits[i], genre, network).value in r.results
    ensures var r := AssembleResults(reply, genre, false, network);
      var hits := reply.body.payload.search;
      forall m :: m in r.results ==> exists i :: 0 <= i < |hits| && DetailMatch(hits[i], genre, network) == Some(m)
    ensures (forall i :: 0 <= i < |reply.body.payload.search| ==> !DetailMalformed(reply.body.payload.search[i], network))
      ==> AssembleResults(reply, genre, false, network).status
          == FoundStatus(|AssembleResults(reply, genre, false, network).results|)
    ensures forall k :: FirstMalformedDetail(reply.body.payload.search, network, k) ==>
      var hits := reply.body.payload.search;
      var r := AssembleResults(reply, genre, false, network);
      && r.results == GatherByGenre(hits[..k], genre, network).movies
      && r.status == ParseErrorPrefix + DetailReply(hits[k], network).body.what
  {
    var hits := reply.body.payload.search;
    forall i | 0 <= i < |hits| && NoMalformedThrough(hits, network, i) && DetailMatch(hits[i], genre, network).Some?
      ensures DetailMatch(hits[i], genre, network).value in GatherByGenre(hits, genre, network).movies
    {
      GatherKeepsEveryMatch(hits, genre, network, i);
    }
    forall m | m in GatherByGenre(hits, genre, network).movies
      ensures exists i :: 0 <= i < |hits| && DetailMatch(hits[i], genre, network) == Some(m)
    {
      GatherKeepsOnlyMatches(hits, genre, network, m);
    }
    forall k | FirstMalformedDetail(hits, network, k)
      ensures GatherByGenre(hits, genre, network).movies == GatherByGenre(hits[..k], genre, network).movies
      ensures GatherByGenre(hits, genre, network).failure
           == Some(DetailReply(hits[k], network).body.what)
    {
      GatherStopsAtMalformedDetail(hits, genre, network, k);
    }
  }


  /**
   How many records the genre search shows, and which: with no malformed
   detail reply, every matching hit contributes its record once, in order,
   and the count is reported; otherwise the contributions of the hits before
   the first malformed one.
   */
  lemma ListSearchWithGenreCounts(reply: Reply, genre: string, network: Network)
    requires Succeeded(reply) && |genre| > 0
    ensures var r := AssembleResults(reply, genre, false, network);
      var hits := reply.body.payload.search;
      (forall i :: 0 <= i < |hits| ==> !DetailMalformed(hits[i], network)) ==>
        && r.results == Contributions(hits, genre, network)
        && r.status == FoundStatus(|Contributions(hits, genre, network)|)
    ensures var r := AssembleResults(reply, genre, false, network);
      var hits := reply.body.payload.search;
      forall k :: FirstMalformedDetail(hits, network, k) ==> r.results == Contributions(hits[..k], genre, network)
  {
    var hits := reply.body.payload.search;
    var g := GatherByGenre(hits, genre, network);
    assert AssembleResults(reply, genre, false, network).results == g.movies;
    if forall i :: 0 <= i < |hits| ==> !DetailMalformed(hits[i], network) {
      GatherIsContributions(hits, genre, network);
      assert AssembleResults(reply, genre, false, network).status == FoundStatus(|g.movies|);
    }
    forall k | FirstMalformedDetail(hits, network, k)
      ensures g.movies == Contributions(hits[..k], genre, network)
    {
      GatherStopsAtMalformedDetail(hits, genre, network, k);
      assert forall i :: 0 <= i < k ==> hits[..k][i] == hits[i];
      GatherIsContributions(hits[..k], genre, network);
    }
  }

  /** The callback always receives one of the terminal statuses, never "Searching...". */
  lemma SearchStatusIsTerminal(query: string, year: string, genre: string, exactMatch: bool, network: Network)
    ensures var r := SearchMovies(query, year, genre, exactMatch, network);
      || r.status == EmptyQueryStatus
      || r.status == RequestFailedStatus
      || r.status == NoResultsStatus
      || r.status == FoundStatus(|r.results|)
      || (|r.status| >= |ParseErrorPrefix| && r.status[..|ParseErrorPrefix|] == ParseErrorPrefix)
    ensures SearchMovies(query, year, genre, exactMatch, network).status != "Searching..."
  {
  }
}
