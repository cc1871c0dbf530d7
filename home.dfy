/** The home page, frontend/src/pages/Home.js: the banner picked from the
    trending movies, and the search state (results, page, query and
    filters) that searching, loading more, the year box and the reset
    button update. Server answers are parameters; the API's base URL comes
    from a configuration file outside this model and is a parameter too. */
module Home {
  import opened JsValues
  import opened JsStrings
  import opened Lists
  import opened Url
  import opened Movies
  import opened QueryDecode

  // ----- banner -----

  const BannerSize := 20

  /** The stand-in banner entry shown when there is nothing to show. */
  const Fallback := Movie(Str("fallback"), "No Trending Movies", None, Some("/8cdWjvZNUXbCnvG8IwV6W316pwH.jpg"),
                          None, None, 0, None, None)

  /** The banner after the trending request: the first twenty trending
      movies with a backdrop, or the fallback entry alone when there are none
      or the request failed. */
  function Banner(trending: Option<seq<Movie>>): (r: seq<Movie>)
    ensures 1 <= |r| <= BannerSize
    ensures forall i :: 0 <= i < |r| ==> HasBackdrop(r[i])
  {
    match trending
    case None => [Fallback]
    case Some(movies) =>
      var withBackdrop := Take(Filter(HasBackdrop, movies), BannerSize);
      if |withBackdrop| > 0 then withBackdrop else [Fallback]
  }

  /** The banner is the fallback alone when no trending movie has a
      backdrop, and otherwise the leading movies with a backdrop, in order:
      all of them when there are at most twenty, and exactly the first twenty
      when there are more. */
  lemma BannerPicksFirstWithBackdrop(movies: seq<Movie>)
    ensures (forall i :: 0 <= i < |movies| ==> !HasBackdrop(movies[i])) ==> Banner(Some(movies)) == [Fallback]
    ensures (exists i :: 0 <= i < |movies| && HasBackdrop(movies[i])) ==>
      Banner(Some(movies)) <= Filter(HasBackdrop, movies)
      && (|Filter(HasBackdrop, movies)| <= BannerSize ==> Banner(Some(movies)) == Filter(HasBackdrop, movies))
    ensures |Filter(HasBackdrop, movies)| >= BannerSize ==>
      Banner(Some(movies)) == Filter(HasBackdrop, movies)[..BannerSize]
  {
    var kept := Filter(HasBackdrop, movies);
    if exists i :: 0 <= i < |movies| && HasBackdrop(movies[i]) {
      var i :| 0 <= i < |movies| && HasBackdrop(movies[i]);
      FilterMembership(HasBackdrop, movies, movies[i]);
      assert kept != [];
    } else {
      assert kept == [] by {
        if kept != [] {
          FilterMembership(HasBackdrop, movies, kept[0]);
        }
      }
    }
  }

  /** Trending movies after the first twenty with a backdrop never reach
      the banner. */
  lemma BannerIgnoresLaterMovies(front: seq<Movie>, back: seq<Movie>)
    requires |Filter(HasBackdrop, front)| >= BannerSize
    ensures Banner(Some(front + back)) == Banner(Some(front))
  {
    FilterConcat(HasBackdrop, front, back);
    var f := Filter(HasBackdrop, front);
    assert (f + Filter(HasBackdrop, back))[..BannerSize] == f[..BannerSize];
  }

  // ----- the search URL -----

  /** `if (given) url += '&name=value'`. */
  function Appended(given: bool, p: Param): seq<Param> {
    if given then [p] else []
  }

  /** The pairs `handleSearch` appends after `?page=`, in order, each only
      when its source value is non-empty: the query and the genre encoded,
      the year and the sort as they are. */
  function SearchParams(searchQuery: string, genre: string, year: string, sortBy: string): seq<Param> {
    Appended(searchQuery != "", ("query", EncodeURIComponent(searchQuery)))
    + Appended(genre != "", ("with_genres", EncodeURIComponent(genre)))
    + Appended(year != "", ("primary_release_year", year))
    + Appended(sortBy != "", ("sort_by", sortBy))
  }

  function SearchBase(apiBase: string, pageNum: int): string {
    apiBase + "/api/movies/search?page=" + IntToString(pageNum)
  }

  /** `if (given) url += '&name=value'`, one step of building the URL. */
  method AppendIf(url: string, given: bool, p: Param) returns (r: string)
    ensures r == url + Query(Appended(given, p))
  {
    AppendedText(given, p);
    r := url;
    if given {
      r := r + ParamText(p);
    }
  }

  /** Appending four groups of pairs in turn appends their concatenation. */
  lemma AppendedInTurn(base: string, a: seq<Param>, b: seq<Param>, c: seq<Param>, d: seq<Param>)
    ensures base + Query(a) + Query(b) + Query(c) + Query(d) == base + Query(a + b + c + d)
  {
    QueryFour(a, b, c, d);
    ConcatInTurn(base, Query(a), Query(b), Query(c), Query(d));
  }

  lemma ConcatInTurn(base: string, a: string, b: string, c: string, d: string)
    ensures base + a + b + c + d == base + (a + b + c + d)
  {
  }

  lemma AppendedText(given: bool, p: Param)
    ensures Query(Appended(given, p)) == if given then ParamText(p) else ""
  {
    if given {
      QueryAppend([], p);
      assert [] + [p] == [p];
    }
  }

  lemma AppendedWellFormed(given: bool, p: Param)
    requires NoDelimiter(p.0) && '&' !in p.1
    ensures WellFormed(Appended(given, p))
  {
  }

  lemma AppendedLookup(given: bool, p: Param, name: string)
    ensures Lookup(Appended(given, p), name) == if given && p.0 == name then Some(p.1) else None
  {
  }

  lemma SearchParamsWellFormed(searchQuery: string, genre: string, year: string, sortBy: string)
    requires '&' !in year && '&' !in sortBy
    ensures WellFormed(SearchParams(searchQuery, genre, year, sortBy))
  {
    EncodedHasNoDelimiter(searchQuery);
    EncodedHasNoDelimiter(genre);
    SearchNamesPlain();
    AppendedWellFormed(searchQuery != "", ("query", EncodeURIComponent(searchQuery)));
    AppendedWellFormed(genre != "", ("with_genres", EncodeURIComponent(genre)));
    AppendedWellFormed(year != "", ("primary_release_year", year));
    AppendedWellFormed(sortBy != "", ("sort_by", sortBy));
    WellFormedFour(Appended(searchQuery != "", ("query", EncodeURIComponent(searchQuery))),
      Appended(genre != "", ("with_genres", EncodeURIComponent(genre))),
      Appended(year != "", ("primary_release_year", year)),
      Appended(sortBy != "", ("sort_by", sortBy)));
  }

  lemma SearchNamesPlain()
    ensures NoDelimiter("query") && NoDelimiter("with_genres")
    ensures NoDelimiter("primary_release_year") && NoDelimiter("sort_by")
  {
  }

  /** The search parameters read back from the query text as they were
      appended, when the unencoded year and sort hold no `&`. */
  lemma SearchParamsReadBack(searchQuery: string, genre: string, year: string, sortBy: string)
    requires '&' !in year && '&' !in sortBy
    ensures ParseQuery(Query(SearchParams(searchQuery, genre, year, sortBy))) == SearchParams(searchQuery, genre, year, sortBy)
  {
    SearchParamsWellFormed(searchQuery, genre, year, sortBy);
    ParseQueryOfQuery(SearchParams(searchQuery, genre, year, sortBy));
  }

  /** `Lookup` in four optional pairs: the first one given with the name. */
  lemma LookupAppended(g1: bool, p1: Param, g2: bool, p2: Param, g3: bool, p3: Param, g4: bool, p4: Param,
                       name: string)
    ensures Lookup(Appended(g1, p1) + Appended(g2, p2) + Appended(g3, p3) + Appended(g4, p4), name)
            == if g1 && p1.0 == name then Some(p1.1)
               else if g2 && p2.0 == name then Some(p2.1)
               else if g3 && p3.0 == name then Some(p3.1)
               else if g4 && p4.0 == name then Some(p4.1)
               else None
  {
    LookupFour(Appended(g1, p1), Appended(g2, p2), Appended(g3, p3), Appended(g4, p4), name);
    AppendedLookup(g1, p1, name);
    AppendedLookup(g2, p2, name);
    AppendedLookup(g3, p3, name);
    AppendedLookup(g4, p4, name);
  }

  /** What the server reads from them: the query, and each filter exactly
      when it was set, with the value set. */
  lemma SearchParamValues(searchQuery: string, genre: string, year: string, sortBy: string)
    ensures var ps := SearchParams(searchQuery, genre, year, sortBy);
      && Lookup(ps, "query") == (if searchQuery != "" then Some(EncodeURIComponent(searchQuery)) else None)
      && Lookup(ps, "with_genres") == (if genre != "" then Some(EncodeURIComponent(genre)) else None)
      && Lookup(ps, "primary_release_year") == (if year != "" then Some(year) else None)
      && Lookup(ps, "sort_by") == (if sortBy != "" then Some(sortBy) else None)
  {
    var pq, pg := ("query", EncodeURIComponent(searchQuery)), ("with_genres", EncodeURIComponent(genre));
    var py, pz := ("primary_release_year", year), ("sort_by", sortBy);
    var gq, gg, gy, gz := searchQuery != "", genre != "", year != "", sortBy != "";
    assert |pq.0| == 5 && |pg.0| == 11 && |py.0| == 20 && |pz.0| == 7;
    LookupAppended(gq, pq, gg, pg, gy, py, gz, pz, pq.0);
    LookupAppended(gq, pq, gg, pg, gy, py, gz, pz, pg.0);
    LookupAppended(gq, pq, gg, pg, gy, py, gz, pz, py.0);
    LookupAppended(gq, pq, gg, pg, gy, py, gz, pz, pz.0);
  }

  /** What the server's query parser hands the route: the text typed and
      the genre chosen, exactly as they were, whatever characters they
      hold. */
  lemma ServerReadsSearch(searchQuery: string, genre: string, year: string, sortBy: string)
    requires '&' !in year && '&' !in sortBy
    ensures var read := ParseQuery(Query(SearchParams(searchQuery, genre, year, sortBy)));
      && (searchQuery != "" <==> Lookup(read, "query").Some?)
      && (searchQuery != "" ==> QueryValue(Lookup(read, "query").value) == searchQuery)
      && (genre != "" <==> Lookup(read, "with_genres").Some?)
      && (genre != "" ==> QueryValue(Lookup(read, "with_genres").value) == genre)
  {
    SearchParamsReadBack(searchQuery, genre, year, sortBy);
    SearchParamValues(searchQuery, genre, year, sortBy);
    QueryValueOfEncoded(searchQuery);
    QueryValueOfEncoded(genre);
  }

  // ----- page state -----

  const SearchError := "Failed to search movies. Please check your connection and try again."

  class HomePage {
    var searchResults: seq<Movie>
    var page: int
    var query: string
    var selectedGenre: string
    var year: string
    var sortBy: string
    var loading: bool
    var error: Option<string>

    /** The initial state from the saved search, genre, year and sort. */
    constructor (savedQuery: Option<string>, savedGenre: Option<string>, savedYear: Option<string>,
                 savedSortBy: Option<string>)
      ensures query == savedQuery.GetOr("") && selectedGenre == savedGenre.GetOr("") && year == savedYear.GetOr("")
      ensures sortBy == if Truthy(savedSortBy) then savedSortBy.value else "popularity.desc"
      ensures searchResults == [] && page == 1 && !loading && error == None
    {
      query := if Truthy(savedQuery) then savedQuery.value else "";
      selectedGenre := if Truthy(savedGenre) then savedGenre.value else "";
      year := if Truthy(savedYear) then savedYear.value else "";
      sortBy := if Truthy(savedSortBy) then savedSortBy.value else "popularity.desc";
      searchResults, page, loading, error := [], 1, false, None;
    }

    /** The URL `handleSearch` builds by appending to it, from the current
        filters. */
    method BuildSearchUrl(apiBase: string, searchQuery: string, pageNum: int) returns (url: string)
      ensures url == SearchBase(apiBase, pageNum) + Query(SearchParams(searchQuery, selectedGenre, year, sortBy))
    {
      url := SearchBase(apiBase, pageNum);
      url := AppendIf(url, searchQuery != "", ("query", EncodeURIComponent(searchQuery)));
      url := AppendIf(url, selectedGenre != "", ("with_genres", EncodeURIComponent(selectedGenre)));
      url := AppendIf(url, year != "", ("primary_release_year", year));
      url := AppendIf(url, sortBy != "", ("sort_by", sortBy));
      AppendedInTurn(SearchBase(apiBase, pageNum),
        Appended(searchQuery != "", ("query", EncodeURIComponent(searchQuery))),
        Appended(selectedGenre != "", ("with_genres", EncodeURIComponent(selectedGenre))),
        Appended(year != "", ("primary_release_year", year)),
        Appended(sortBy != "", ("sort_by", sortBy)));
    }

    /** `handleSearch(searchQuery, pageNum)`: an empty query clears the
        results and sends nothing; otherwise the URL is built piece by piece
        and the answer replaces the results for page 1, or is appended after
        them for any other page. `answer` is the server's list of results,
        `None` when the request fails. */
    method HandleSearch(apiBase: string, searchQuery: string, pageNum: int, answer: Option<seq<Movie>>)
      returns (url: Option<string>)
      modifies this`searchResults, this`page, this`loading, this`error
      ensures searchQuery == "" ==>
        url == None && searchResults == [] && !loading
        && page == old(page) && error == old(error)
      ensures searchQuery != "" ==>
        && url == Some(SearchBase(apiBase, pageNum) + Query(SearchParams(searchQuery, selectedGenre, year, sortBy)))
        && !loading
        && (answer.Some? ==>
              searchResults == (if pageNum == 1 then answer.value else old(searchResults) + answer.value)
              && page == pageNum && error == None)
        && (answer.None? ==>
              searchResults == old(searchResults) && page == old(page) && error == Some(SearchError))
    {
      if searchQuery == "" {
        searchResults := [];
        loading := false;
        return None;
      }
      loading := true;
      error := None;
      var text := BuildSearchUrl(apiBase, searchQuery, pageNum);
      url := Some(text);
      TakeAnswer(pageNum, answer);
      loading := false;
    }

    /** What the request's outcome does: the results for page 1 replace
        the list and later pages are appended, or the error is shown. */
    method TakeAnswer(pageNum: int, answer: Option<seq<Movie>>)
      modifies this`searchResults, this`page, this`error
      ensures answer.Some? ==>
        searchResults == (if pageNum == 1 then answer.value else old(searchResults) + answer.value)
        && page == pageNum && error == old(error)
      ensures answer.None? ==>
        searchResults == old(searchResults) && page == old(page) && error == Some(SearchError)
    {
      match answer {
        case Some(results) =>
          searchResults := if pageNum == 1 then results else searchResults + results;
          page := pageNum;
        case None =>
          error := Some(SearchError);
      }
    }

    /** `loadMore`: the next page of the current query, appended; a failed
        request leaves the list and the page as they were and shows the
        error, and an empty query clears the list. */
    method LoadMore(apiBase: string, answer: Option<seq<Movie>>) returns (url: Option<string>)
      modifies this`searchResults, this`page, this`loading, this`error
      ensures query != "" && old(page) != 0 && answer.Some? ==>
        searchResults == old(searchResults) + answer.value && page == old(page) + 1 && error == None
      ensures query != "" && answer.None? ==>
        searchResults == old(searchResults) && page == old(page) && error == Some(SearchError)
      ensures query != "" ==>
        url == Some(SearchBase(apiBase, old(page) + 1) + Query(SearchParams(query, selectedGenre, year, sortBy)))
      ensures query == "" ==>
        url == None && searchResults == [] && page == old(page) && error == old(error)
      ensures !loading
    {
      url := HandleSearch(apiBase, query, page + 1, answer);
    }

    /** The effect on the query and the filters: search page 1 of a
        non-empty query, or clear the results and go back to page 1. */
    method RefreshResults(apiBase: string, answer: Option<seq<Movie>>) returns (url: Option<string>)
      modifies this`searchResults, this`page, this`loading, this`error
      ensures query != "" ==>
        && url == Some(SearchBase(apiBase, 1) + Query(SearchParams(query, selectedGenre, year, sortBy)))
        && !loading
      ensures query != "" && answer.Some? ==> searchResults == answer.value && page == 1 && error == None
      ensures query != "" && answer.None? ==>
        searchResults == old(searchResults) && page == old(page) && error == Some(SearchError)
      ensures query == "" ==>
        && url == None && searchResults == [] && page == 1
        && loading == old(loading) && error == old(error)
    {
      if query != "" {
        url := HandleSearch(apiBase, query, 1, answer);
      } else {
        searchResults := [];
        page := 1;
        url := None;
      }
    }

    /** The search bar's `onSearch`: a new query, back to page 1. */
    method OnSearch(searchQuery: string)
      modifies this`query, this`page
      ensures query == searchQuery && page == 1
    {
      query := searchQuery;
      page := 1;
    }

    /** The year box's `onChange`: longer than four characters is ignored;
        a complete or emptied year goes back to page 1. */
    method OnYearInput(value: string)
      modifies this`year, this`page
      ensures Utf16Length(value) > 4 ==> year == old(year) && page == old(page)
      ensures Utf16Length(value) <= 4 ==> year == value
      ensures page == if Utf16Length(value) == 4 || value == "" then 1 else old(page)
      ensures Utf16Length(old(year)) <= 4 ==> Utf16Length(year) <= 4
    {
      if Utf16Length(value) <= 4 {
        year := value;
        if Utf16Length(value) == 4 || value == "" {
          page := 1;
        }
      }
    }

    /** `handleFilterReset`. */
    method HandleFilterReset()
      modifies this`selectedGenre, this`year, this`sortBy, this`query, this`searchResults, this`page
      ensures selectedGenre == "" && year == "" && sortBy == "popularity.desc"
      ensures query == "" && searchResults == [] && page == 1
      ensures !YearHasError(year)
    {
      selectedGenre := "";
      year := "";
      sortBy := "popularity.desc";
      query := "";
      searchResults := [];
      page := 1;
    }
  }

  /** `error={year && year.length !== 4}`. */
  predicate YearHasError(year: string) {
    year != "" && Utf16Length(year) != 4
  }

  /** Under the length cap the year box keeps, the error shows exactly for a
      year of one to three characters. */
  lemma YearErrorIffIncomplete(year: string)
    requires Utf16Length(year) <= 4
    ensures YearHasError(year) <==> 1 <= Utf16Length(year) <= 3
  {
  }
}
