/**
 Detail enrichment of one record already on screen. The guard on
 `hasDetails`/`fetching` decides whether anything happens; otherwise the
 record goes through "fetch in flight" and back, with the detail fields
 filled in only when the provider answers with a parsed success.

 The worker thread is not modelled; the record the callback receives is.
 */
module DetailFetch {
  import opened MovieRecord
  import opened Provider
  import opened Requests

  /** `Skipped`: the guard returned at once and no callback runs. */
  datatype FetchOutcome = Skipped | Delivered(movie: Movie)

  /** The request is sent: the record is marked as being fetched. */
  function BeginFetch(m: Movie): (r: Movie)
    ensures r.fetching
    ensures r.(fetching := m.fetching) == m
  {
    m.(fetching := true)
  }

  /** The reply is handled and the in-flight mark is cleared, whatever happened. */
  function FinishFetch(m: Movie, reply: Reply): (r: Movie)
    ensures !r.fetching
    ensures SameSummary(r, m)
    ensures Succeeded(reply) ==>
      var f := reply.body.payload.fields;
      && r.hasDetails
      && r.plot == Value(f, "Plot", "N/A")
      && r.rating == Value(f, "imdbRating", "N/A")
      && r.actors == Value(f, "Actors", "N/A")
      && r.director == Value(f, "Director", "N/A")
      && r.genre == Value(f, "Genre", "N/A")
      && r.runtime == Value(f, "Runtime", "N/A")
      && r.released == Value(f, "Released", "N/A")
    ensures !Succeeded(reply) ==> r == m.(fetching := false)
  {
    var updated :=
      if Succeeded(reply) then
        var f := reply.body.payload.fields;
        m.(
          plot := Value(f, "Plot", "N/A"),
          rating := Value(f, "imdbRating", "N/A"),
          actors := Value(f, "Actors", "N/A"),
          director := Value(f, "Director", "N/A"),
          genre := Value(f, "Genre", "N/A"),
          runtime := Value(f, "Runtime", "N/A"),
          released := Value(f, "Released", "N/A"),
          hasDetails := true)
      else m;
    updated.(fetching := false)
  }

  /**
   `fetchMovieDetails`: nothing happens to a record that has details or is
   being fetched. Otherwise the detail path for its id is requested and the
   record the callback receives is the finished one.
   */
  function FetchMovieDetails(m: Movie, network: Network): (r: FetchOutcome)
    ensures r.Skipped? <==> m.hasDetails || m.fetching
    ensures r.Delivered? ==> !r.movie.fetching && SameSummary(r.movie, m)
    ensures r.Delivered? && Succeeded(network(DetailPath(m.imdb_id))) ==> r.movie.hasDetails
    ensures r.Delivered? && !Succeeded(network(DetailPath(m.imdb_id))) ==> r.movie == m
  {
    if m.hasDetails || m.fetching then Skipped
    else
      var inFlight := BeginFetch(m);
      Delivered(FinishFetch(inFlight, network(DetailPath(inFlight.imdb_id))))
  }

  /** A record whose details arrived is never fetched again. */
  lemma FetchIsIdempotent(m: Movie, network: Network, network': Network)
    requires FetchMovieDetails(m, network).Delivered?
    requires Succeeded(network(DetailPath(m.imdb_id)))
    ensures FetchMovieDetails(FetchMovieDetails(m, network).movie, network').Skipped?
  {
  }

  /** No completed fetch leaves a record both "fetching" and "has details". */
  lemma FetchNeverLeavesBothFlags(m: Movie, network: Network)
    requires !(m.fetching && m.hasDetails)
    ensures var r := FetchMovieDetails(m, network);
      r.Delivered? ==> !(r.movie.fetching && r.movie.hasDetails)
  {
  }
}
