/** GET /trending and GET /search of the movie routes
    (backend/routes/movies.js): calls to the TMDb API whose answers are
    filtered and, for a text search, sorted by the server itself. */
module MoviesRoutes {
  import opened JsValues
  import opened JsStrings
  import opened Lists
  import opened Url
  import opened Movies
  import opened MovieSort
  import opened Http
  import opened QueryDecode

  const TmdbBaseUrl := "https://api.themoviedb.org/3"

  /** `response.data` of a TMDb list endpoint. */
  datatype Upstream = Upstream(results: seq<Movie>, totalPages: int, totalResults: int)

  // ----- GET /trending -----

  /** GET /trending, given what the TMDb API answered (`None` when the
      request failed). */
  function Trending(upstream: Option<seq<Movie>>): Response {
    match upstream
    case None => Failure(500, "Failed to fetch trending movies")
    case Some(movies) => Response(200, MovieList(Filter(HasArtwork, movies)))
  }

  /** The trending list is exactly the upstream movies that have both a
      poster and a backdrop, each as often as upstream sent it, in upstream
      order; a failed request is a 500. */
  lemma TrendingKeepsMoviesWithArtwork(movies: seq<Movie>, more: seq<Movie>)
    ensures Trending(None) == Failure(500, "Failed to fetch trending movies")
    ensures Trending(Some(movies)).status == 200 && Trending(Some(movies)).body.MovieList?
    ensures forall m :: m in Trending(Some(movies)).body.movies <==> m in movies && HasArtwork(m)
    ensures forall m :: multiset(Trending(Some(movies)).body.movies)[m]
                        == if HasArtwork(m) then multiset(movies)[m] else 0
    ensures Trending(Some(movies + more)).body.movies
            == Trending(Some(movies)).body.movies + Trending(Some(more)).body.movies
  {
    forall m ensures m in Filter(HasArtwork, movies) <==> m in movies && HasArtwork(m) {
      FilterMembership(HasArtwork, movies, m);
    }
    forall m ensures multiset(Filter(HasArtwork, movies))[m] == if HasArtwork(m) then multiset(movies)[m] else 0 {
      FilterMultiset(HasArtwork, movies, m);
    }
    FilterConcat(HasArtwork, movies, more);
  }

  // ----- GET /search: the request -----

  /** The query parameters of GET /search, as Express parsed them. */
  datatype SearchRequest = SearchRequest(
    query: Option<string>,
    page: Option<string>,
    withGenres: Option<string>,
    primaryReleaseYear: Option<string>,
    sortBy: Option<string>)

  /** `page` as it is interpolated: the default `1` when absent. */
  function PageText(page: Option<string>): string {
    page.GetOr("1")
  }

  /** `query && query.trim()`: the text-search branch is taken. */
  predicate IsTextSearch(req: SearchRequest) {
    req.query.Some? && Trim(req.query.value) != ""
  }

  /** A missing, empty or all-white-space query goes to the discover
      branch, and any other query to the text search. */
  lemma TextSearchIffQueryHasText(req: SearchRequest)
    ensures IsTextSearch(req) <==>
      req.query.Some? && !(forall i :: 0 <= i < |req.query.value| ==> IsJsWhitespace(req.query.value[i]))
  {
    if req.query.Some? {
      TrimEmptyIffBlank(req.query.value);
    }
  }

  // ----- GET /search: the text-search branch -----

  /** The TMDb search URL of the text branch. */
  function SearchUrl(apiKey: string, req: SearchRequest): string
    requires req.query.Some?
  {
    TmdbBaseUrl + "/search/movie?api_key=" + apiKey
      + Query([("query", EncodeURIComponent(req.query.value)),
               ("page", PageText(req.page)),
               ("include_adult", "false")])
  }

  /** `movie.genre_ids && movie.genre_ids.includes(genreId)`; a genre that
      does not parse (`NaN`) matches no movie, and an empty id list is
      still a list. */
  predicate HasGenre(m: Movie, genreId: Option<int>) {
    m.genreIds.Some? && genreId.Some? && genreId.value in m.genreIds.value
  }

  /** `movie.release_date && movie.release_date.startsWith(year)`. */
  predicate ReleasedIn(m: Movie, year: string) {
    Truthy(m.releaseDate) && StartsWith(m.releaseDate.value, year)
  }

  /** `sort_by.split('.')`: the first piece names the field and a second
      piece equal to `desc` reverses the order. `None` for any other field:
      its comparator is `NaN` for every pair, which the sort treats as a tie,
      so a stable sort keeps the order. */
  function ParseSortBy(sortBy: string): Option<SortOrder> {
    var parts := Split(sortBy, '.');
    var descending := |parts| > 1 && parts[1] == "desc";
    if parts[0] == "popularity" then Some(SortOrder(Popularity, descending))
    else if parts[0] == "vote_average" then Some(SortOrder(VoteAverage, descending))
    else if parts[0] == "release_date" then Some(SortOrder(ReleaseDate, descending))
    else None
  }

  function FieldName(f: SortField): string {
    match f
    case Popularity => "popularity"
    case VoteAverage => "vote_average"
    case ReleaseDate => "release_date"
  }

  /** `field.desc` sorts by the field in descending order, `field.x` for
      any other `x` without a dot in ascending order, and `field` alone too. */
  lemma ParseSortByMeaning(f: SortField, order: string)
    requires '.' !in order
    ensures ParseSortBy(FieldName(f) + "." + order) == Some(SortOrder(f, order == "desc"))
    ensures ParseSortBy(FieldName(f)) == Some(SortOrder(f, false))
  {
    var name := FieldName(f);
    assert '.' !in name;
    SplitWithoutSeparator(order, '.');
    SplitAfterPiece(name, '.', order);
    assert name + "." + order == name + ['.'] + order;
    SplitWithoutSeparator(name, '.');
  }

  /** The sort the request asks for, if any. */
  function RequestedOrder(req: SearchRequest): Option<SortOrder> {
    if Truthy(req.sortBy) then ParseSortBy(req.sortBy.value) else None
  }

  predicate GenreOk(req: SearchRequest, m: Movie) {
    Truthy(req.withGenres) ==> HasGenre(m, ParseInt(req.withGenres.value))
  }

  predicate YearOk(req: SearchRequest, m: Movie) {
    Truthy(req.primaryReleaseYear) ==> ReleasedIn(m, req.primaryReleaseYear.value)
  }

  /** A movie the text search keeps. */
  predicate Wanted(req: SearchRequest, m: Movie) {
    GenreOk(req, m) && YearOk(req, m) && HasArtwork(m)
  }

  function WantedBy(req: SearchRequest): Movie -> bool {
    m => Wanted(req, m)
  }

  function FiltersBy(req: SearchRequest): Movie -> bool {
    m => GenreOk(req, m) && YearOk(req, m)
  }

  /** What the text-search branch promises of its results: each wanted
      movie as often as the search found it and nothing else, sorted when a
      known sort was asked for and in the order found otherwise. */
  ghost predicate TextResults(req: SearchRequest, found: seq<Movie>, results: seq<Movie>) {
    && (forall m :: multiset(results)[m] == if Wanted(req, m) then multiset(found)[m] else 0)
    && (RequestedOrder(req).Some? ==> SortedBy(results, RequestedOrder(req).value))
    && (RequestedOrder(req).None? ==> results == Filter(WantedBy(req), found))
  }

  /** Every text-search result matches the genre, the year prefix and has
      both artwork paths. */
  lemma TextResultsAreWanted(req: SearchRequest, found: seq<Movie>, results: seq<Movie>)
    requires TextResults(req, found, results)
    ensures forall i :: 0 <= i < |results| ==> Wanted(req, results[i])
  {
    forall i | 0 <= i < |results| ensures Wanted(req, results[i]) {
      assert multiset(results)[results[i]] > 0;
    }
  }

  /** A filter keeps the order of a sorted list. */
  lemma {:induction false} FilterKeepsSorted(p: Movie -> bool, s: seq<Movie>, o: SortOrder)
    requires SortedBy(s, o)
    ensures SortedBy(Filter(p, s), o)
  {
    if s != [] {
      FilterKeepsSorted(p, s[1..], o);
      if p(s[0]) {
        var r := Filter(p, s);
        forall j | 0 < j < |r| ensures InOrder(s[0], r[j], o) {
          FilterMembership(p, s[1..], r[j]);
          var k :| 0 <= k < |s[1..]| && s[1..][k] == r[j];
          assert s[k + 1] == r[j];
        }
      }
    }
  }

  /** The multiplicities a filter leaves, for every movie at once. */
  lemma FilterCounts(p: Movie -> bool, s: seq<Movie>)
    ensures forall m :: multiset(Filter(p, s))[m] == if p(m) then multiset(s)[m] else 0
  {
    forall m ensures multiset(Filter(p, s))[m] == if p(m) then multiset(s)[m] else 0 {
      FilterMultiset(p, s, m);
    }
  }

  /** `movie => movie.genre_ids && movie.genre_ids.includes(genreId)`. */
  function GenreTest(genreId: Option<int>): Movie -> bool {
    m => HasGenre(m, genreId)
  }

  /** `movie => movie.release_date && movie.release_date.startsWith(year)`. */
  function YearTest(year: string): Movie -> bool {
    m => ReleasedIn(m, year)
  }

  function GenreStageTest(req: SearchRequest): Movie -> bool {
    m => GenreOk(req, m)
  }

  /** The genre step keeps what `GenreOk` accepts, whether it runs or not. */
  lemma GenreStage(req: SearchRequest, found: seq<Movie>)
    ensures Filter(GenreStageTest(req), found)
            == if Truthy(req.withGenres) then Filter(GenreTest(ParseInt(req.withGenres.value)), found) else found
  {
    if Truthy(req.withGenres) {
      FilterSameTest(GenreTest(ParseInt(req.withGenres.value)), GenreStageTest(req), found);
    } else {
      FilterKeepsAll(GenreStageTest(req), found);
    }
  }

  /** After the year step, what `GenreOk` and `YearOk` accept is kept. */
  lemma YearStage(req: SearchRequest, found: seq<Movie>)
    ensures Filter(FiltersBy(req), found)
            == if Truthy(req.primaryReleaseYear)
               then Filter(YearTest(req.primaryReleaseYear.value), Filter(GenreStageTest(req), found))
               else Filter(GenreStageTest(req), found)
  {
    if Truthy(req.primaryReleaseYear) {
      FilterBoth(GenreStageTest(req), YearTest(req.primaryReleaseYear.value), FiltersBy(req), found);
    } else {
      FilterSameTest(GenreStageTest(req), FiltersBy(req), found);
    }
  }

  /** The artwork filter after the other two, on a permutation of their
      result, keeps each wanted movie as often as it was found. */
  lemma ArtworkStage(req: SearchRequest, found: seq<Movie>, sorted: seq<Movie>)
    requires multiset(sorted) == multiset(Filter(FiltersBy(req), found))
    ensures forall m :: multiset(Filter(HasArtwork, sorted))[m]
                        == if Wanted(req, m) then multiset(found)[m] else 0
  {
    FilterCounts(FiltersBy(req), found);
    FilterCounts(HasArtwork, sorted);
  }

  /** Without a sort the three filters are one filter by `Wanted`. */
  lemma UnsortedStage(req: SearchRequest, found: seq<Movie>)
    ensures Filter(HasArtwork, Filter(FiltersBy(req), found)) == Filter(WantedBy(req), found)
  {
    FilterBoth(FiltersBy(req), HasArtwork, WantedBy(req), found);
  }

  /** Steps 2 and 3 of the text search and the artwork filter: keep the
      genre, keep the year prefix, sort in place, drop movies without both
      artwork paths. */
  method SelectSearchResults(found: seq<Movie>, req: SearchRequest) returns (results: seq<Movie>)
    ensures TextResults(req, found, results)
  {
    var searchResults := found;
    if Truthy(req.withGenres) {
      var genreId := ParseInt(req.withGenres.value);
      searchResults := Filter(GenreTest(genreId), searchResults);
    }
    GenreStage(req, found);
    if Truthy(req.primaryReleaseYear) {
      searchResults := Filter(YearTest(req.primaryReleaseYear.value), searchResults);
    }
    YearStage(req, found);
    ghost var filtered := searchResults;

    var order := RequestedOrder(req);
    if order.Some? {
      var a := new Movie[|searchResults|](i requires 0 <= i < |searchResults| => searchResults[i]);
      assert a[..] == searchResults;
      SortInPlace(a, order.value);
      searchResults := a[..];
    }

    results := Filter(HasArtwork, searchResults);
    ArtworkStage(req, found, searchResults);
    if order.Some? {
      FilterKeepsSorted(HasArtwork, searchResults, order.value);
    } else {
      UnsortedStage(req, found);
    }
  }

  // ----- GET /search: the discover branch -----

  function DiscoverBase(apiKey: string): string {
    TmdbBaseUrl + "/discover/movie?api_key=" + apiKey
  }

  /** `&name=value` with the encoded value, only when the value is truthy. */
  function OptionalParam(name: string, value: Option<string>): seq<Param> {
    if Truthy(value) then [(name, EncodeURIComponent(value.value))] else []
  }

  /** `sort_by`, encoded, or `popularity.desc` when none was given. */
  function SortParam(req: SearchRequest): Param {
    ("sort_by", if Truthy(req.sortBy) then EncodeURIComponent(req.sortBy.value) else "popularity.desc")
  }

  /** The parameters the discover URL carries, in the order appended. */
  function DiscoverParams(req: SearchRequest): seq<Param> {
    [("page", PageText(req.page)), ("include_adult", "false")]
    + OptionalParam("with_genres", req.withGenres)
    + OptionalParam("primary_release_year", req.primaryReleaseYear)
    + [SortParam(req)]
  }

  /** An optional parameter adds its `&name=value` or nothing. */
  lemma OptionalParamText(name: string, value: Option<string>)
    ensures Query(OptionalParam(name, value))
            == if Truthy(value) then ParamText((name, EncodeURIComponent(value.value))) else ""
  {
    if Truthy(value) {
      QueryAppend([], (name, EncodeURIComponent(value.value)));
      assert [] + OptionalParam(name, value) == OptionalParam(name, value);
    }
  }

  /** Builds the discover URL by appending to it, as the handler does. */
  method DiscoverUrl(apiKey: string, req: SearchRequest) returns (url: string)
    ensures url == DiscoverBase(apiKey) + Query(DiscoverParams(req))
  {
    var page := ("page", PageText(req.page));
    var adult := ("include_adult", "false");
    var query := ParamText(page) + ParamText(adult);
    ghost var q0 := query;
    OptionalParamText("with_genres", req.withGenres);
    if Truthy(req.withGenres) {
      query := query + ParamText(("with_genres", EncodeURIComponent(req.withGenres.value)));
    }
    assert query == q0 + Query(OptionalParam("with_genres", req.withGenres));
    ghost var q1 := query;
    OptionalParamText("primary_release_year", req.primaryReleaseYear);
    if Truthy(req.primaryReleaseYear) {
      query := query + ParamText(("primary_release_year", EncodeURIComponent(req.primaryReleaseYear.value)));
    }
    assert query == q1 + Query(OptionalParam("primary_release_year", req.primaryReleaseYear));
    query := query + ParamText(SortParam(req));
    QueryPieces(page, adult, OptionalParam("with_genres", req.withGenres),
      OptionalParam("primary_release_year", req.primaryReleaseYear), SortParam(req));
    url := DiscoverBase(apiKey) + query;
  }

  /** An optional parameter has the name given and a value made by
      `encodeURIComponent`. */
  lemma OptionalParamWellFormed(name: string, value: Option<string>)
    requires NoDelimiter(name)
    ensures WellFormed(OptionalParam(name, value))
    ensures Lookup(OptionalParam(name, value), name).Some? <==> Truthy(value)
  {
    if Truthy(value) {
      EncodedHasNoDelimiter(value.value);
    }
  }

  lemma HeadWellFormed(page: string)
    requires NoDelimiter(page)
    ensures WellFormed([("page", page), ("include_adult", "false")])
  {
    assert NoDelimiter("page") && NoDelimiter("include_adult") && '&' !in "false";
  }

  lemma SortParamWellFormed(req: SearchRequest)
    ensures WellFormed([SortParam(req)])
  {
    if Truthy(req.sortBy) {
      EncodedHasNoDelimiter(req.sortBy.value);
    }
    assert NoDelimiter("sort_by") && '&' !in "popularity.desc";
  }

  lemma DiscoverParamsWellFormed(req: SearchRequest)
    requires NoDelimiter(PageText(req.page))
    ensures WellFormed(DiscoverParams(req))
  {
    var head := [("page", PageText(req.page)), ("include_adult", "false")];
    var genre := OptionalParam("with_genres", req.withGenres);
    var year := OptionalParam("primary_release_year", req.primaryReleaseYear);
    HeadWellFormed(PageText(req.page));
    SortParamWellFormed(req);
    OptionalParamWellFormed("with_genres", req.withGenres);
    OptionalParamWellFormed("primary_release_year", req.primaryReleaseYear);
    WellFormedConcat(head, genre);
    WellFormedConcat(head + genre, year);
    WellFormedConcat(head + genre + year, [SortParam(req)]);
  }

  /** The discover URL's query reads back as the parameters appended. The
      page is interpolated without encoding, so this holds when it holds
      no `&` or `=`. */
  lemma DiscoverUrlReadsBack(req: SearchRequest)
    requires NoDelimiter(PageText(req.page))
    ensures ParseQuery(Query(DiscoverParams(req))) == DiscoverParams(req)
  {
    DiscoverParamsWellFormed(req);
    ParseQueryOfQuery(DiscoverParams(req));
  }

  /** What TMDb reads from those parameters: the page, `include_adult=false`,
      the genre and the year only when given, and `sort_by`, which is
      `popularity.desc` when none was given. */
  lemma DiscoverParamValues(req: SearchRequest)
    ensures Lookup(DiscoverParams(req), "page") == Some(PageText(req.page))
    ensures Lookup(DiscoverParams(req), "include_adult") == Some("false")
    ensures Lookup(DiscoverParams(req), "with_genres")
            == if Truthy(req.withGenres) then Some(EncodeURIComponent(req.withGenres.value)) else None
    ensures Lookup(DiscoverParams(req), "primary_release_year")
            == if Truthy(req.primaryReleaseYear) then Some(EncodeURIComponent(req.primaryReleaseYear.value)) else None
    ensures Lookup(DiscoverParams(req), "sort_by")
            == if Truthy(req.sortBy) then Some(EncodeURIComponent(req.sortBy.value)) else Some("popularity.desc")
  {
    var head := [("page", PageText(req.page)), ("include_adult", "false")];
    var genre := OptionalParam("with_genres", req.withGenres);
    var year := OptionalParam("primary_release_year", req.primaryReleaseYear);
    var sort := [SortParam(req)];
    var ps := DiscoverParams(req);
    assert ps == head + (genre + year + sort);
    LookupConcat(head, genre + year + sort, "page");
    LookupConcat(head, genre + year + sort, "include_adult");
    GenreLookup(req, head, genre, year, sort);
    YearLookup(req, head, genre, year, sort);
    SortLookup(req, head, genre, year, sort);
  }

  /** The page is the one value interpolated without encoding, so a page
      `a&n=v` (sent by the client as `a%26n%3Dv`) adds the parameter `n=v`
      of the client's choosing right after `page=a`: TMDb receives it ahead
      of everything the route appends, `include_adult=false` among them.
      Which of two pairs with the same name TMDb then applies is TMDb's
      own rule; `Lookup` takes the first. */
  lemma UnencodedPageAddsParameter(req: SearchRequest, a: string, n: string, v: string)
    requires req.page == Some(a + "&" + n + "=" + v)
    requires NoDelimiter(a) && NoDelimiter(n) && '&' !in v && n != "page"
    ensures ParseQuery(Query(DiscoverParams(req))) == [("page", a), (n, v)] + DiscoverTail(req)
    ensures Lookup(ParseQuery(Query(DiscoverParams(req))), "page") == Some(a)
    ensures Lookup(ParseQuery(Query(DiscoverParams(req))), n) == Some(v)
  {
    var read := [("page", a), (n, v)] + DiscoverTail(req);
    assert ParseQuery(Query(DiscoverParams(req))) == read by {
      InjectedQueryText(req, a, n, v);
      DiscoverTailWellFormed(req);
      InjectedWellFormed(a, n, v, DiscoverTail(req));
      ParseQueryOfQuery(read);
    }
    assert read[0] == ("page", a) && read[1] == (n, v);
    LookupFirst(read, "page", 0);
    LookupFirst(read, n, 1);
  }

  /** The discover text with such a page is that of the pairs read. */
  lemma InjectedQueryText(req: SearchRequest, a: string, n: string, v: string)
    requires req.page == Some(a + "&" + n + "=" + v)
    ensures Query(DiscoverParams(req)) == Query([("page", a), (n, v)] + DiscoverTail(req))
  {
    var rest := DiscoverTail(req);
    DiscoverTailWellFormed(req);
    PageCarriesPair(a, n, v);
    QueryConcat([("page", a + "&" + n + "=" + v)], rest);
    QueryConcat([("page", a), (n, v)], rest);
  }

  /** What the discover URL appends after the page. */
  function DiscoverTail(req: SearchRequest): seq<Param> {
    [("include_adult", "false")]
    + OptionalParam("with_genres", req.withGenres)
    + OptionalParam("primary_release_year", req.primaryReleaseYear)
    + [SortParam(req)]
  }

  lemma DiscoverTailWellFormed(req: SearchRequest)
    ensures DiscoverParams(req) == [("page", PageText(req.page))] + DiscoverTail(req)
    ensures WellFormed(DiscoverTail(req))
  {
    var genre := OptionalParam("with_genres", req.withGenres);
    var year := OptionalParam("primary_release_year", req.primaryReleaseYear);
    var head := [("page", PageText(req.page)), ("include_adult", "false")];
    assert head == [head[0]] + [head[1]];
    assert DiscoverTail(req) == [head[1]] + genre + year + [SortParam(req)];
    OptionalParamWellFormed("with_genres", req.withGenres);
    OptionalParamWellFormed("primary_release_year", req.primaryReleaseYear);
    SortParamWellFormed(req);
    assert NoDelimiter("include_adult") && '&' !in "false";
    assert WellFormed([head[1]]);
    WellFormedFour([head[1]], genre, year, [SortParam(req)]);
  }

  lemma InjectedWellFormed(a: string, n: string, v: string, rest: seq<Param>)
    requires NoDelimiter(a) && NoDelimiter(n) && '&' !in v && WellFormed(rest)
    ensures WellFormed([("page", a), (n, v)] + rest)
  {
    assert NoDelimiter("page");
    WellFormedConcat([("page", a), (n, v)], rest);
  }

  /** A client asking for a page `a&include_adult=true` (such as
      `page=1%26include_adult%3Dtrue`) sends TMDb `include_adult=true` right
      after the page and ahead of the route's own `include_adult=false`, and
      a first-wins reading takes the client's. */
  lemma PageSendsAdultFlagFirst(req: SearchRequest, a: string)
    requires req.page == Some(a + "&include_adult=true") && NoDelimiter(a)
    ensures var read := ParseQuery(Query(DiscoverParams(req)));
      && 3 <= |read|
      && read[0] == ("page", a)
      && read[1] == ("include_adult", "true")
      && read[2] == ("include_adult", "false")
      && Lookup(read, "include_adult") == Some("true")
  {
    assert a + "&include_adult=true" == a + "&" + "include_adult" + "=" + "true";
    assert NoDelimiter("include_adult") && '&' !in "true";
    UnencodedPageAddsParameter(req, a, "include_adult", "true");
    assert DiscoverTail(req)[0] == ("include_adult", "false");
  }

  /** `page=a&n=v` is the text of the two pairs `page=a` and `n=v`. */
  lemma PageCarriesPair(a: string, n: string, v: string)
    ensures Query([("page", a + "&" + n + "=" + v)]) == Query([("page", a), (n, v)])
  {
    QuerySingle(("page", a + "&" + n + "=" + v));
    QuerySingle(("page", a));
    QueryAppend([("page", a)], (n, v));
    assert [("page", a)] + [(n, v)] == [("page", a), (n, v)];
  }

  /** TMDb gets back what the client sent: the discover URL carries the
      genre and the year exactly when given, the sort always (by default
      `popularity.desc`), and
      `decodeURIComponent` turns each back into the value received. */
  lemma DiscoverValuesReachTmdb(req: SearchRequest)
    requires NoDelimiter(PageText(req.page))
    ensures var read := ParseQuery(Query(DiscoverParams(req)));
      && (Truthy(req.withGenres) <==> Lookup(read, "with_genres").Some?)
      && (Truthy(req.withGenres) ==>
            DecodeURIComponent(Lookup(read, "with_genres").value) == Some(req.withGenres.value))
      && (Truthy(req.primaryReleaseYear) <==> Lookup(read, "primary_release_year").Some?)
      && (Truthy(req.primaryReleaseYear) ==>
            DecodeURIComponent(Lookup(read, "primary_release_year").value) == Some(req.primaryReleaseYear.value))
      && (!Truthy(req.sortBy) ==> Lookup(read, "sort_by") == Some("popularity.desc"))
      && (Truthy(req.sortBy) ==>
            Lookup(read, "sort_by").Some?
            && DecodeURIComponent(Lookup(read, "sort_by").value) == Some(req.sortBy.value))
  {
    DiscoverUrlReadsBack(req);
    DiscoverParamValues(req);
    if Truthy(req.withGenres) {
      DecodeEncode(req.withGenres.value);
    }
    if Truthy(req.primaryReleaseYear) {
      DecodeEncode(req.primaryReleaseYear.value);
    }
    if Truthy(req.sortBy) {
      DecodeEncode(req.sortBy.value);
    }
  }

  /** The text branch's URL carries the query, which TMDb decodes back to
      the text received. */
  lemma SearchUrlCarriesQuery(req: SearchRequest)
    requires req.query.Some? && NoDelimiter(PageText(req.page))
    ensures var read := ParseQuery(Query([("query", EncodeURIComponent(req.query.value)),
                                          ("page", PageText(req.page)),
                                          ("include_adult", "false")]));
      Lookup(read, "query").Some? && DecodeURIComponent(Lookup(read, "query").value) == Some(req.query.value)
  {
    var q := ("query", EncodeURIComponent(req.query.value));
    var head := [("page", PageText(req.page)), ("include_adult", "false")];
    EncodedHasNoDelimiter(req.query.value);
    assert NoDelimiter("query");
    assert WellFormed([q]);
    HeadWellFormed(PageText(req.page));
    WellFormedConcat([q], head);
    assert [q] + head == [q, ("page", PageText(req.page)), ("include_adult", "false")];
    ParseQueryOfQuery([q] + head);
    DecodeEncode(req.query.value);
  }

  /** A parameter list without the name has no value for it. */
  lemma LookupAbsent(ps: seq<Param>, name: string)
    requires forall i :: 0 <= i < |ps| ==> |ps[i].0| != |name|
    ensures Lookup(ps, name) == None
  {
  }

  lemma GenreLookup(req: SearchRequest, head: seq<Param>, genre: seq<Param>, year: seq<Param>, sort: seq<Param>)
    requires head == [("page", PageText(req.page)), ("include_adult", "false")]
    requires genre == OptionalParam("with_genres", req.withGenres)
    requires year == OptionalParam("primary_release_year", req.primaryReleaseYear)
    requires sort == [SortParam(req)]
    ensures Lookup(head + genre + year + sort, "with_genres")
            == if Truthy(req.withGenres) then Some(EncodeURIComponent(req.withGenres.value)) else None
  {
    OptionalParamWellFormed("with_genres", req.withGenres);
    assert |"with_genres"| == 11 && |head[0].0| == 4 && |head[1].0| == 13;
    LookupAbsent(head, "with_genres");
    LookupFour(head, genre, year, sort, "with_genres");
  }

  lemma YearLookup(req: SearchRequest, head: seq<Param>, genre: seq<Param>, year: seq<Param>, sort: seq<Param>)
    requires head == [("page", PageText(req.page)), ("include_adult", "false")]
    requires genre == OptionalParam("with_genres", req.withGenres)
    requires year == OptionalParam("primary_release_year", req.primaryReleaseYear)
    requires sort == [SortParam(req)]
    ensures Lookup(head + genre + year + sort, "primary_release_year")
            == if Truthy(req.primaryReleaseYear) then Some(EncodeURIComponent(req.primaryReleaseYear.value)) else None
  {
    OptionalParamWellFormed("primary_release_year", req.primaryReleaseYear);
    assert |"primary_release_year"| == 20 && |head[0].0| == 4 && |head[1].0| == 13;
    assert genre != [] ==> |genre[0].0| == 11;
    LookupAbsent(head, "primary_release_year");
    LookupAbsent(genre, "primary_release_year");
    LookupFour(head, genre, year, sort, "primary_release_year");
  }

  lemma SortLookup(req: SearchRequest, head: seq<Param>, genre: seq<Param>, year: seq<Param>, sort: seq<Param>)
    requires head == [("page", PageText(req.page)), ("include_adult", "false")]
    requires genre == OptionalParam("with_genres", req.withGenres)
    requires year == OptionalParam("primary_release_year", req.primaryReleaseYear)
    requires sort == [SortParam(req)]
    ensures Lookup(head + genre + year + sort, "sort_by") == Some(SortParam(req).1)
  {
    assert |"sort_by"| == 7 && |head[0].0| == 4 && |head[1].0| == 13;
    assert genre != [] ==> |genre[0].0| == 11;
    assert year != [] ==> |year[0].0| == 20;
    LookupAbsent(head, "sort_by");
    LookupAbsent(genre, "sort_by");
    LookupAbsent(year, "sort_by");
    LookupFour(head, genre, year, sort, "sort_by");
  }

  // ----- GET /search -----

  /** GET /search: a text search when the query has text, a discover
      request otherwise. `fetch` answers each TMDb URL (`None` when the
      request fails); the URL requested is returned beside the response. */
  method Search(req: SearchRequest, apiKey: string, fetch: string -> Option<Upstream>)
    returns (resp: Response, url: string)
    ensures IsTextSearch(req) ==> url == SearchUrl(apiKey, req)
    ensures !IsTextSearch(req) ==> url == DiscoverBase(apiKey) + Query(DiscoverParams(req))
    ensures fetch(url).None? ==> resp == Failure(500, "Failed to fetch movies from TMDb")
    ensures fetch(url).Some? ==> resp.status == 200 && resp.body.SearchPage?
    ensures fetch(url).Some? && IsTextSearch(req) ==>
      && TextResults(req, fetch(url).value.results, resp.body.results)
      && resp.body.totalPages == 1
      && resp.body.totalResults == |resp.body.results|
    ensures fetch(url).Some? && !IsTextSearch(req) ==>
      var up := fetch(url).value;
      resp.body == SearchPage(Filter(HasArtwork, up.results), up.totalPages, up.totalResults)
  {
    if IsTextSearch(req) {
      url := SearchUrl(apiKey, req);
      var response := fetch(url);
      if response.None? {
        return Failure(500, "Failed to fetch movies from TMDb"), url;
      }
      var finalResults := SelectSearchResults(response.value.results, req);
      resp := Response(200, SearchPage(finalResults, 1, |finalResults|));
    } else {
      url := DiscoverUrl(apiKey, req);
      var response := fetch(url);
      if response.None? {
        return Failure(500, "Failed to fetch movies from TMDb"), url;
      }
      var finalResults := Filter(HasArtwork, response.value.results);
      resp := Response(200, SearchPage(finalResults, response.value.totalPages, response.value.totalResults));
    }
  }
}
