/**
 The movie record that flows through search, detail enrichment, sorting and
 the favorites list. The source's `type` field is called `kind` here,
 because `type` is a Dafny keyword.
 */
module MovieRecord {

  datatype Movie = Movie(
    title: string,
    year: string,
    imdb_id: string,
    actors: string,
    poster_url: string,
    plot: string,
    rating: string,
    director: string,
    genre: string,
    runtime: string,
    kind: string,       // movie, series, episode, ...
    released: string,
    fetching: bool,     // a detail fetch is in flight
    hasDetails: bool    // the detail fields have been filled in
  )

  /** A default-constructed record: every string empty, both flags false. */
  const Blank: Movie := Movie("", "", "", "", "", "", "", "", "", "", "", "", false, false)

  /** The five fields a search hit carries, which detail enrichment never touches. */
  predicate SameSummary(a: Movie, b: Movie) {
    && a.title == b.title
    && a.year == b.year
    && a.imdb_id == b.imdb_id
    && a.poster_url == b.poster_url
    && a.kind == b.kind
  }
}
