/** The movie record the TMDb API returns and the application passes
    around, with the fields it reads; every field but the id may be missing. */
module Movies {
  import opened JsValues

  datatype Movie = Movie(
    id: JsId,
    title: string,
    posterPath: Option<string>,
    backdropPath: Option<string>,
    genreIds: Option<seq<int>>,
    releaseDate: Option<string>,
    // `new Date(release_date).getTime()`, computed by the date library
    releaseTime: int,
    // integer stand-ins for the floating-point `popularity` and `vote_average`
    popularity: Option<int>,
    voteAverage: Option<int>)

  predicate HasPoster(m: Movie) {
    Truthy(m.posterPath)
  }

  predicate HasBackdrop(m: Movie) {
    Truthy(m.backdropPath)
  }

  /** `movie.poster_path && movie.backdrop_path`. */
  predicate HasArtwork(m: Movie) {
    HasPoster(m) && HasBackdrop(m)
  }

  /** The three fields a search can be sorted by. */
  datatype SortField = Popularity | VoteAverage | ReleaseDate

  /** The value the comparator reads; a missing value counts as 0. */
  function SortKey(m: Movie, f: SortField): int {
    match f
    case Popularity => m.popularity.GetOr(0)
    case VoteAverage => m.voteAverage.GetOr(0)
    case ReleaseDate => if Truthy(m.releaseDate) then m.releaseTime else 0
  }

  datatype SortOrder = SortOrder(field: SortField, descending: bool)

  /** `a` may come before `b`: the comparator
      `(valueA - valueB) * multiplier` is not positive. */
  predicate InOrder(a: Movie, b: Movie, o: SortOrder) {
    if o.descending then SortKey(a, o.field) >= SortKey(b, o.field)
    else SortKey(a, o.field) <= SortKey(b, o.field)
  }

  /** Non-increasing in the key when descending, non-decreasing otherwise. */
  predicate SortedBy(s: seq<Movie>, o: SortOrder) {
    forall i, j :: 0 <= i < j < |s| ==> InOrder(s[i], s[j], o)
  }
}
