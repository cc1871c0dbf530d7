# Movie Explorer — a verified model of its core logic

Movie Explorer is a movie browser. It has two parts:

- An Express backend. It proxies the TMDb API, keeps users and their favorite movie ids in MongoDB, and issues JSON Web Tokens.
- A React frontend. It shows trending movies and a search page, and keeps a favorites list in the browser.

This project models, in Dafny, the parts of both that make decisions:

- **Movie routes.** The trending filter. The text search, which filters by genre, filters by release-year prefix, sorts in place and drops movies without artwork. The discover URL, built with `+=`.
- **Authentication.** The register, login and validate routes, run as guard-and-return steps over the user collection. The JWT middleware. Two ways of reading a token from an `Authorization: Bearer <token>` header (section 2.1 of RFC 6750): a split at the space, and a replace of the first `Bearer `.
- **Favorites routes.** Their own token guard, plus GET, POST (add if absent) and DELETE (clear) on a user's list of TMDb ids.
- **The client's global store.** `MovieProvider` is a class whose methods update its fields: dark mode, session, favorites, and the `localStorage` token and favorites.
- **Client components.**
  - the movie card's favorite test and heart button;
  - the movie page's runtime, trailer, cast and detail helpers;
  - the search box;
  - the sign-in form;
  - the home page: banner, search URL, result paging, year box, filter reset.

These have no model of their own: the network, MongoDB, bcrypt and `jsonwebtoken`. Their outcomes are parameters:

- an `Option` for a request that can fail;
- a `Verified` value (decoded, expired or invalid) for `jwt.verify`;
- a pair of functions for bcrypt, with `Sound` as the one law assumed of it.

JavaScript's own operations are written out in `JsValues`, `JsStrings`, `Lists` and `Url`:

- truthiness and `===` on ids that may be numbers or strings;
- `String(n)` and `parseInt`;
- `trim`, `split`, `join`, and `replace` with a string pattern;
- `length` in UTF-16 code units;
- `encodeURIComponent`;
- `filter`, `find`, `slice` and `map`.

The `%` operator, which truncates in JavaScript, is modelled explicitly.

`QueryDecode` models how a server reads a query value back: `decodeURIComponent` as ECMA-262 defines it over UTF-8 `%XX` escapes, and the query parser's `+`-as-space wrapper, which keeps text that fails to decode.

## Model

| member | source | states |
|---|---|---|
| JsValues.StrictEquals | frontend/src/context/MovieContext.js:85 | `===` on ids holds exactly when both are the same kind and the same value. |
| JsValues.ParseIntRoundTrip | backend/routes/movies.js:39 | `parseInt(String(n))` gives back `n` for every integer. |
| JsValues.IntToStringInjective | frontend/src/components/MovieDetails.js:89 | Two integers print alike only when they are equal. |
| JsValues.StringEqualityOfIds | frontend/src/components/MovieCard.js:12-13 | Comparing `String(id)` is implied by `===`, and coincides with it when both ids are numbers. |
| JsValues.MixedIdsPrintAlike | frontend/src/components/MovieCard.js:13 | The number 550 and the string "550" print alike but are not `===`. |
| JsValues.TrimStart | backend/routes/movies.js:39 | Leading white space is removed and nothing else; the rest starts with a non-space. |
| JsStrings.TrimEmptyIffBlank | backend/routes/movies.js:30 | `s.trim()` is empty exactly when every character of `s` is white space. |
| JsStrings.Utf16Length | backend/routes/auth.js:15 | `length` counts one or two units per character, and one per character when all are in the Basic Multilingual Plane. |
| JsStrings.JoinSplit | backend/routes/movies.js:54 | Joining the pieces of `split(c)` with `c` rebuilds the string. |
| JsStrings.SplitJoin | backend/routes/movies.js:54 | Splitting a join of separator-free pieces gives the pieces back. |
| JsStrings.SplitHasSecondPiece | backend/routes/auth.js:87 | `split(' ')` has a second piece exactly when the text holds a space. |
| JsStrings.IndexFrom | backend/middleware/auth.js:10 | The index found is an occurrence and no earlier one exists; `None` means there is no occurrence. |
| JsStrings.ReplaceAbsent | backend/middleware/auth.js:10 | `replace` leaves a text without the pattern unchanged. |
| JsStrings.ReplaceFirstOccurrence | backend/middleware/auth.js:10 | `replace` swaps only the first occurrence and keeps the text around it. |
| JsStrings.ReplaceLeadingPattern | backend/middleware/auth.js:10 | A text that starts with the pattern loses exactly that prefix. |
| Lists.Filter | backend/routes/movies.js:14 | The result is no longer than the input, and every element in it passes the test. |
| Lists.FilterMembership | backend/routes/movies.js:14 | An element survives a filter exactly when it occurs and passes. |
| Lists.FilterConcat | backend/routes/movies.js:14 | Filtering distributes over concatenation, so order is kept. |
| Lists.FilterMultiset | backend/routes/movies.js:14 | Each passing element is kept as often as it occurs; the others are dropped. |
| Lists.FilterPermutation | backend/routes/movies.js:76 | Filtering two permutations of each other gives permutations of each other. |
| Lists.FilterFilter | backend/routes/movies.js:38-50 | Two filters in a row keep exactly what passes both tests. |
| Lists.Find | frontend/src/components/MovieDetails.js:79-81 | `find` returns an element of the list that passes the test; `None` means no element passes. |
| Lists.FindIsFirst | frontend/src/components/MovieDetails.js:79-81 | No element before the one `find` returns passes the test. |
| Lists.Take | frontend/src/pages/Home.js:72 | `slice(0, n)` is a prefix of length `min(n, length)`. |
| Lists.Map | frontend/src/components/MovieDetails.js:514 | `map` keeps the length and applies `f` at each index. |
| Url.EncodeURIComponent | backend/routes/movies.js:32 | The result holds only `%` and unreserved characters and is no shorter than the input. |
| Url.EncodeUnreserved | backend/routes/movies.js:32 | Text made only of unreserved characters is left as it is. |
| Url.EncodeReservedChar | backend/routes/movies.js:89 | Any other character becomes `%XX` triples of its UTF-8 bytes: one triple for ASCII. |
| Url.EncodedHasNoDelimiter | backend/routes/movies.js:89-91 | An encoded value never contains `&` or `=`. |
| Url.QueryConcat | backend/routes/movies.js:89-92 | Appending parameter groups one after another gives the text of their concatenation. |
| Url.LookupConcat | backend/routes/movies.js:89-92 | A name is read from the first group that has it. |
| Url.ParseQueryOfQuery | backend/routes/movies.js:87-92 | Query text built from well-formed pairs parses back to the same pairs. |
| QueryDecode.ReadPercentBytes | backend/routes/movies.js:25 | The `%XX` escapes written for a list of bytes read back as the same bytes. |
| QueryDecode.Utf8RoundTrip | backend/routes/movies.js:25 | UTF-8 decoding gives back every encoded character, and the lead byte gives the sequence length. |
| QueryDecode.DecodeEncodedChar | backend/routes/movies.js:25 | An encoded character at the head of a text decodes to itself, and decoding carries on after it. |
| QueryDecode.DecodeEncode | backend/routes/movies.js:32 | `decodeURIComponent` undoes `encodeURIComponent` on every string. |
| QueryDecode.QueryValueOfEncoded | backend/routes/movies.js:25 | The query parser reads an encoded value back as the original text. |
| QueryDecode.MalformedEscapeKept | backend/routes/movies.js:25 | The parser keeps a truncated UTF-8 escape as written and reads `+` as a space. |
| Tokens.SecondWord | backend/routes/auth.js:87 | Gives a token exactly when the header holds a space; the token holds no space. |
| Tokens.StripBearer | backend/middleware/auth.js:10 | Gives a token exactly when there is a header. |
| Tokens.ReadingsAgreeOnBearer | backend/routes/favoritesRoutes.js:13 | On `Bearer <token>` with a space-free token, both readings give the token. |
| Tokens.ReadingsDifferOnExtraWords | backend/middleware/auth.js:10 | On `Bearer a b` the split reading gives `a` and the replace reading gives `a b`. |
| Tokens.ReadingsDifferOnOtherScheme | backend/middleware/auth.js:10 | On `Basic abc` the split reading gives `abc` and the replace reading gives the whole header. |
| Tokens.ReadingsDifferOnBareToken | backend/routes/auth.js:87 | On a bare token the split reading finds nothing and the replace reading takes it whole. |
| MoviesRoutes.TrendingKeepsMoviesWithArtwork | backend/routes/movies.js:11-20 | The trending list is exactly the upstream movies with both a poster and a backdrop, in order, with their multiplicity; a failed request is 500 `Failed to fetch trending movies`. |
| MoviesRoutes.TextSearchIffQueryHasText | backend/routes/movies.js:30 | The text branch runs exactly when the query is present and not all white space; otherwise the discover branch runs. |
| MoviesRoutes.ParseSortByMeaning | backend/routes/movies.js:54-55 | `field.desc` sorts that field in descending order; `field.x` for any other dot-free suffix, or `field` alone, sorts ascending. |
| MoviesRoutes.TextResultsAreWanted | backend/routes/movies.js:38-50 | Every text-search result matches the parsed genre and the year prefix and has both artwork paths. |
| MoviesRoutes.FilterKeepsSorted | backend/routes/movies.js:76 | The artwork filter keeps a sorted list sorted. |
| MoviesRoutes.GenreStage | backend/routes/movies.js:38-43 | The genre step filters by the parsed genre id when `with_genres` is given, and keeps everything otherwise. |
| MoviesRoutes.YearStage | backend/routes/movies.js:45-50 | The year step filters by the release-date prefix when `primary_release_year` is given, and keeps everything otherwise. |
| MoviesRoutes.SelectSearchResults | backend/routes/movies.js:37-76 | The results are the wanted movies, each as often as found. They are sorted when a known sort was asked for, and in found order otherwise. |
| MoviesRoutes.DiscoverUrl | backend/routes/movies.js:87-92 | The `+=` steps build the base URL followed by the page, `include_adult=false`, the optional genre and year, and the sort. |
| MoviesRoutes.DiscoverUrlReadsBack | backend/routes/movies.js:87-92 | When the page holds no `&` or `=`, the discover query splits back into exactly the pairs appended, values still encoded. |
| MoviesRoutes.DiscoverParamValues | backend/routes/movies.js:87-92 | The URL always carries `page` and `include_adult=false`. It carries the encoded genre and year only when given, and the encoded sort or the default `popularity.desc`. |
| MoviesRoutes.DiscoverValuesReachTmdb | backend/routes/movies.js:87-92 | When the page holds no `&` or `=`: after parsing and `decodeURIComponent`, TMDb gets the genre, year and sort as received, each present exactly when given. |
| MoviesRoutes.SearchUrlCarriesQuery | backend/routes/movies.js:32 | When the page holds no `&` or `=`, the text-search URL's `query` decodes back to the text received. |
| MoviesRoutes.UnencodedPageAddsParameter | backend/routes/movies.js:87 | The page is pasted in unencoded: for a page `a&n=v` the pairs TMDb receives are exactly `page=a`, the client's own `n=v`, and then every pair the route appends; a first-wins lookup of `n` gives `v`. |
| MoviesRoutes.PageSendsAdultFlagFirst | backend/routes/movies.js:87 | For a page `a&include_adult=true` (such as `1%26include_adult%3Dtrue` from the client), TMDb receives `page=a`, then `include_adult=true`, then the route's own `include_adult=false`, in that order; a first-wins lookup of `include_adult` gives `true`. |
| MoviesRoutes.Search | backend/routes/movies.js:24-111 | Picks the URL by branch. A failed fetch gives 500. A text search answers its results, `total_pages` 1 and `total_results` equal to the count. A discover search answers the movies with artwork and TMDb's totals. |
| MovieSort.SortInPlace | backend/routes/movies.js:57-72 | After the in-place sort the array is ordered by the field and direction, and is a permutation of the input. |
| MovieSort.SwapDown | backend/routes/movies.js:57 | Swapping two neighbours keeps the multiset of movies. |
| Users.FindByUsername | backend/routes/auth.js:20 | `findOne` returns a user with that username, or `None` exactly when no user has it. |
| Users.FindById | backend/routes/auth.js:94 | `findById` returns the user with that id, or `None` exactly when no user has it. |
| Users.Replace | backend/routes/favoritesRoutes.js:59 | Saving a read document overwrites the entry with its id and no other. |
| Users.FindAfterReplace | backend/routes/favoritesRoutes.js:59 | After a save, the saved id finds the new document and every other id finds what it found before. |
| Users.UserStore.Insert | backend/routes/auth.js:29 | A new document is stored exactly when the schema accepts it, neither its id nor its username is taken, and the `googleId` and `email` indexes admit it. A missing value takes the null slot unless the indexes are sparse. |
| Users.UserStore.Update | backend/routes/favoritesRoutes.js:59 | A read document is saved exactly when the schema accepts it. |
| Users.InsertKeepsKeysUnique | backend/models/User.js:4 | An accepted insert keeps ids and usernames unique. |
| Users.ReplaceKeepsKeysUnique | backend/models/User.js:4 | An update that keeps the username keeps ids and usernames unique. |
| AuthRoutes.Register | backend/routes/auth.js:8-45 | The answer and the collection after the route equal the guard sequence `RegisterResult` applied to the old collection. |
| AuthRoutes.RegisterGuards | backend/routes/auth.js:12-23 | The guards run in order: missing field, then short password, then taken username. Each gives its 400, and a 400 stores nothing. |
| AuthRoutes.PasswordLengthInCodeUnits | backend/routes/auth.js:15-17 | A password of fewer than six characters from the Basic Multilingual Plane is refused, and three astral characters count as six. |
| AuthRoutes.RegisterSuccess | backend/routes/auth.js:26-40 | A success adds exactly one user holding the hash, not the plaintext, and answers a token with `{username, id}`. Any other answer stores nothing, except a signing failure after the save. |
| AuthRoutes.RegisterKeepsKeysUnique | backend/routes/auth.js:20-29 | Registration keeps ids and usernames unique. |
| AuthRoutes.RegisterAlwaysFailsAsWritten | backend/routes/auth.js:26-29 | Under the declared schema a register never succeeds or stores anything. Past the guards it answers 500. |
| AuthRoutes.LoginUniformRefusal | backend/routes/auth.js:57-66 | An unknown username and a wrong password get the same 400 `Invalid username or password`. |
| AuthRoutes.LoginSucceedsIff | backend/routes/auth.js:48-81 | Login succeeds exactly when the user exists, has a hash the password matches, and a token is signed. It then names that user. |
| AuthRoutes.RegisterFailsOnNullIndex | backend/models/User.js:6-7 | With email optional but the indexes not sparse, once any user lacks a Google id, every register stores nothing and does not succeed. |
| AuthRoutes.FirstRegisterSavesWithoutSparse | backend/models/User.js:6-7 | Under that schema the first register into an empty collection stores the new user. |
| AuthRoutes.RegisterThenLogin | backend/routes/auth.js:26-77 | With a sound bcrypt, logging in with the credentials just registered succeeds and names the new user. |
| AuthRoutes.FindAfterInsert | backend/routes/auth.js:57 | A username absent before an insert is found as the inserted user. |
| AuthRoutes.ValidateOutcomes | backend/routes/auth.js:85-109 | `No token provided` without a second word. `Token expired`, or `Invalid token` for a bad token or a missing user. Every failure is a 401. |
| AuthRoutes.ValidateReadsClientHeader | backend/routes/auth.js:87-97 | The client's `Bearer <token>` header reaches the verifier with that token. |
| AuthMiddleware.Handle | backend/middleware/auth.js:3-31 | On success `req.user` is the payload, `next()` is called once and nothing is sent. Otherwise exactly one response is sent and `next()` is not called. |
| AuthMiddleware.SecretCheckedFirst | backend/middleware/auth.js:5-8 | Without a secret the answer is 500 `Server configuration error`, whatever the header; with one, every refusal is a 401. |
| AuthMiddleware.PassIff | backend/middleware/auth.js:10-20 | A request passes exactly when there is a secret and a non-empty stripped token that verifies. It carries that token's payload. |
| AuthMiddleware.ClientHeaderVerified | backend/middleware/auth.js:10-30 | `Bearer <token>` hands the verifier the token, spaces included. The outcome maps to pass, `Token expired` or `Invalid token`. |
| AuthMiddleware.BareHeaderVerified | backend/middleware/auth.js:10-14 | A non-empty header with no `Bearer ` anywhere in it passes exactly when it verifies whole. A missing header is 401 `Access denied`. |
| FavoritesRoutes.Authorize | backend/routes/favoritesRoutes.js:12-22 | Either `req.userId` is set and `next()` is called once, or exactly one 401 is sent. |
| FavoritesRoutes.GuardOutcomes | backend/routes/favoritesRoutes.js:13-21 | No second word gives 401 `Unauthorized`. Otherwise it passes with the payload's user id exactly when the token verifies, and gives 401 `Invalid token` if not. |
| FavoritesRoutes.GuardReadsClientHeader | backend/routes/favoritesRoutes.js:13-16 | The client's header passes exactly when its token verifies. |
| FavoritesRoutes.FetchAll | backend/routes/favoritesRoutes.js:31-38 | One movie per stored id, in stored order, or a failure exactly when some fetch fails. |
| FavoritesRoutes.PostFavorite | backend/routes/favoritesRoutes.js:48-77 | The answer and the collection after the route equal `PostResult` of the old collection. |
| FavoritesRoutes.PostChecksIdFirst | backend/routes/favoritesRoutes.js:49-50 | A missing or falsy movie id gives 400 before any lookup, and stores nothing. |
| FavoritesRoutes.PostAddsIfAbsent | backend/routes/favoritesRoutes.js:53-72 | A success leaves the list as add-if-absent of the old one and touches no other user. It answers one movie per stored id, in order. |
| FavoritesRoutes.PostIdempotent | backend/routes/favoritesRoutes.js:57-60 | Posting the same id twice stores what posting it once does. |
| FavoritesRoutes.WithFavoriteKeepsNoDuplicates | backend/routes/favoritesRoutes.js:57-58 | Adding if absent keeps the ids distinct, contains the id afterwards, and is idempotent. |
| FavoritesRoutes.ClearFavorites | backend/routes/favoritesRoutes.js:80-92 | The answer and the collection after the route equal `ClearResult` of the old collection. |
| FavoritesRoutes.ClearEmpties | backend/routes/favoritesRoutes.js:85-88 | A successful DELETE leaves the user's list empty, answers `[]`, and touches no other user. |
| FavoritesRoutes.UnknownUserNotFound | backend/routes/favoritesRoutes.js:27-28 | GET, POST and DELETE all answer 404 `User not found` for an unknown user and store nothing. |
| FavoritesList.AddAppendsIffAbsent | frontend/src/context/MovieContext.js:83-91 | The movie is appended at the end exactly when no favorite has a `===` id; otherwise the list is unchanged. |
| FavoritesList.AddIdempotent | frontend/src/context/MovieContext.js:84-90 | Adding the same movie twice is adding it once. |
| FavoritesList.AddKeepsDistinct | frontend/src/context/MovieContext.js:84-90 | Adding keeps favorite ids distinct. |
| FavoritesList.RemoveDropsExactly | frontend/src/context/MovieContext.js:93-98 | Exactly the favorites whose id is `===` the argument are dropped; the others keep their multiplicity. |
| FavoritesList.RemoveKeepsOrder | frontend/src/context/MovieContext.js:95 | Removing works piece by piece over any split, so the order is kept. |
| FavoritesList.RemoveAbsentIsNoOp | frontend/src/context/MovieContext.js:95 | Removing an id no favorite has changes nothing. |
| FavoritesList.RemoveKeepsDistinct | frontend/src/context/MovieContext.js:93-98 | Removing keeps favorite ids distinct. |
| FavoritesList.RemoveUndoesAdd | frontend/src/context/MovieContext.js:83-98 | Adding a new movie and then removing its id gives the list back. |
| MovieContext.LoginDialogStateNotProvided | frontend/src/context/MovieContext.js:106-121 | Neither `showLoginDialog` nor `setShowLoginDialog` is in the context value. |
| MovieContext.Provider.constructor | frontend/src/context/MovieContext.js:7-19 | Dark mode is off unless saved. `isAuthenticated` holds exactly when a token is stored. Favorites are the saved list or `[]`. There is no user. |
| MovieContext.Provider.ToggleDarkMode | frontend/src/context/MovieContext.js:22-24 | Dark mode is negated. |
| MovieContext.Provider.Logout | frontend/src/context/MovieContext.js:75-81 | The stored token and favorites are removed, and the session is signed out with no favorites and no user. |
| MovieContext.Provider.Login | frontend/src/context/MovieContext.js:61-73 | The token is stored. A validated token signs the user in; a failed validation ends in the logged-out state. |
| MovieContext.Provider.ValidateStoredToken | frontend/src/context/MovieContext.js:36-54 | Without a stored token nothing changes. Otherwise the outcome is the same as `login`'s. |
| MovieContext.Provider.AddFavorite | frontend/src/context/MovieContext.js:83-91 | The list becomes add-if-absent of the old one, and distinct ids stay distinct. |
| MovieContext.Provider.RemoveFavorite | frontend/src/context/MovieContext.js:93-98 | The list becomes the old one without `===` ids. An absent id is a no-op, and distinct ids stay distinct. |
| MovieContext.Provider.ClearFavorites | frontend/src/context/MovieContext.js:100-102 | The list is empty. |
| MovieContext.Provider.SetShowLoginDialog | frontend/src/components/LoginDialog.js:46 | The dialog flag becomes the value passed. |
| MovieCard.IsFavoriteMatchesStore | frontend/src/components/MovieCard.js:12-13 | The card's string test is implied by the store's `===` test, and agrees with it when all ids are numbers. |
| MovieCard.SignedOutToggleThrowsAsWritten | frontend/src/components/MovieCard.js:18-22 | When signed out, the handler as written calls an undefined setter and throws. |
| MovieCard.StringIdRemovesNoNumericFavorite | frontend/src/components/MovieCard.js:24-26 | With numeric ids, the string id passed to `removeFavorite` removes nothing. |
| MovieCard.FavoriteSurvivesToggleAsWritten | frontend/src/components/MovieCard.js:26 | Movie 550, the only favorite, is still a favorite after its heart is clicked. |
| MovieCard.HandleFavoriteToggle | frontend/src/components/MovieCard.js:15-31 | Signed out: opens the login dialog and leaves favorites alone. Signed in: removes the favorite by the movie's own id, or appends the movie. |
| MovieCard.ToggleFlips | frontend/src/components/MovieCard.js:24-30 | With numeric ids, a click makes a favorite stop being one and makes anything else one. |
| MovieCard.PosterSrc | frontend/src/components/MovieCard.js:52-56 | The w500 prefix followed by the poster path, or the placeholder when there is no path. |
| MovieCard.DisplayYear | frontend/src/components/MovieCard.js:115 | A prefix of the release date of at most four characters, or `N/A` without a date. |
| MovieDetails.JsRemainder | frontend/src/components/MovieDetails.js:88 | `%` keeps the sign of the dividend and is smaller than the divisor in magnitude. |
| MovieDetails.FormatRuntime | frontend/src/components/MovieDetails.js:85-90 | `N/A` exactly for a missing or zero runtime. |
| MovieDetails.RuntimeSplit | frontend/src/components/MovieDetails.js:87-89 | A positive runtime prints as `{h}h {r}m` with `60*h + r` equal to it and `0 <= r < 60`. |
| MovieDetails.RuntimeTextInjective | frontend/src/components/MovieDetails.js:89 | Two different positive runtimes never print alike. |
| MovieDetails.NegativeRuntime | frontend/src/components/MovieDetails.js:87-88 | -30 minutes prints as `-1h -30m`. |
| MovieDetails.TrailerUrl | frontend/src/components/MovieDetails.js:79-82 | `null` exactly when no video is a YouTube trailer. |
| MovieDetails.TrailerIsFirst | frontend/src/components/MovieDetails.js:79-82 | The link is the watch URL of the first YouTube trailer. |
| MovieDetails.TopCast | frontend/src/components/MovieDetails.js:315 | The first six cast members, in order, or all of them when there are fewer. |
| MovieDetails.AvatarSrc | frontend/src/components/MovieDetails.js:319-323 | The w185 portrait URL, or `/broken-image.jpg` without a profile path. |
| MovieDetails.CompaniesLine | frontend/src/components/MovieDetails.js:499 | The companies line is shown exactly when there is a company. |
| MovieDetails.CompaniesLineReadsBack | frontend/src/components/MovieDetails.js:514 | Comma-free names can be read back from the `', '`-joined line. |
| SearchBar.ButtonsAgree | frontend/src/components/SearchBar.js:82-98 | Submit is enabled exactly when the query has a non-space character. Then the clear button shows too; a blank query shows clear but disables submit. |
| SearchBar.SearchBox.constructor | frontend/src/components/SearchBar.js:7 | The query starts as `initialQuery`. |
| SearchBar.SearchBox.HandleSubmit | frontend/src/components/SearchBar.js:13-18 | `onSearch` gets the untrimmed query exactly when its trim is non-empty. |
| SearchBar.SearchBox.HandleClear | frontend/src/components/SearchBar.js:20-23 | The query becomes empty and `onSearch('')` is called. |
| SearchBar.SearchBox.OnChange | frontend/src/components/SearchBar.js:49 | The query becomes the typed value. |
| SearchBar.SearchBox.ReceiveInitialQuery | frontend/src/components/SearchBar.js:9-11 | A changed `initialQuery` replaces the query; an unchanged one leaves it. |
| LoginForm.Form.constructor | frontend/src/components/Login.js:106-109 | The form starts empty, in login mode. |
| LoginForm.Form.HandleSubmit | frontend/src/components/Login.js:114-132 | The error is cleared first. Empty fields set the fixed message and send nothing. Otherwise it posts to `register` exactly in register mode, and shows the server's error or `An error occurred` on failure. |
| LoginForm.Form.ToggleMode | frontend/src/components/Login.js:193-198 | The mode flips, and the error, username and password are cleared. |
| Home.Banner | frontend/src/pages/Home.js:70-82 | The banner holds one to twenty movies, each with a backdrop. |
| Home.BannerPicksFirstWithBackdrop | frontend/src/pages/Home.js:70-77 | The fallback alone when no trending movie has a backdrop. Otherwise all movies with one when there are at most twenty, and exactly the first twenty when there are more. |
| Home.BannerIgnoresLaterMovies | frontend/src/pages/Home.js:70-72 | Movies after the first twenty with a backdrop never reach the banner. |
| Home.AppendIf | frontend/src/pages/Home.js:123 | One `+=` step adds the pair's text exactly when its value is given. |
| Home.SearchParamsReadBack | frontend/src/pages/Home.js:122-126 | The pairs appended split back from the query in their fixed order, values still encoded. |
| Home.SearchParamValues | frontend/src/pages/Home.js:123-126 | The query, genre, year and sort are each present exactly when non-empty, with the text appended. The query and genre are encoded, the year and sort raw. |
| Home.ServerReadsSearch | frontend/src/pages/Home.js:122-124 | After parsing and decoding, the server gets the typed query and the chosen genre exactly as they were, each present exactly when non-empty. |
| Home.HomePage.constructor | frontend/src/pages/Home.js:36-45 | The query and filters start from the saved values, with `popularity.desc` as the default sort, on page 1 with no results. |
| Home.HomePage.BuildSearchUrl | frontend/src/pages/Home.js:122-126 | The `+=` steps build the base URL with the page, followed by the query and filters in fixed order. |
| Home.HomePage.HandleSearch | frontend/src/pages/Home.js:112-137 | An empty query clears the results and loading and sends nothing. Otherwise page 1 replaces the results, later pages append, `page` becomes `pageNum`, and a failure shows the error. |
| Home.HomePage.TakeAnswer | frontend/src/pages/Home.js:128-133 | A page-1 answer replaces the results, a later page appends, and a failure sets the error. |
| Home.HomePage.LoadMore | frontend/src/pages/Home.js:139-141 | Requests page `page + 1` of the current query and appends its results. On failure the results and page stay and the error is shown. An empty query clears the results and sends nothing. |
| Home.HomePage.RefreshResults | frontend/src/pages/Home.js:103-110 | A non-empty query requests page 1 and replaces the results, or on failure keeps them and shows the error. An empty one clears the results and resets the page. |
| Home.HomePage.OnSearch | frontend/src/pages/Home.js:244-246 | A new query resets the page to 1. |
| Home.HomePage.OnYearInput | frontend/src/pages/Home.js:343-351 | More than four characters is ignored. The page goes back to 1 only for a four-character or empty value. The year never grows past four. |
| Home.HomePage.HandleFilterReset | frontend/src/pages/Home.js:143-149 | Genre and year are empty, the sort is `popularity.desc`, the query is empty, there are no results, and the page is 1. |
| Home.YearErrorIffIncomplete | frontend/src/pages/Home.js:353 | Within the length cap, the year box shows its error exactly for one to three characters. |

## Left out

- Network calls are parameters of the model: the TMDb requests and the backend requests from the client give a result, or `None` for failure.
- Database failures are not modelled. `findOne` and `findById` are lookups in the modelled collection and never fail. `save` fails only on validation or a unique-index clash. So these answers to a failing database are left out:
  - 500 `Login failed. Please try again.` (backend/routes/auth.js:78-80);
  - 401 `Invalid token` when `findById` throws in /validate (backend/routes/auth.js:103-108);
  - 500 `Server error` when a lookup or save throws (backend/routes/favoritesRoutes.js:41-43, 73-75 and 89-91).
  - `Promise.all` is modelled as a sequential fetch. Its concurrency is not modelled.
- bcrypt and `jsonwebtoken` are parameters. The `Sound` predicate is the only law assumed of bcrypt. Token expiry clocks are not modelled.
- `popularity`, `vote_average` and `new Date(release_date).getTime()` are floating point values; the model uses integer keys for them. `toFixed` and `toLocaleString` are not modelled.
- `MoviesRoutes.ParseSortBy`: an unknown sort field is modelled as no reordering. Such a comparator returns `NaN` for every pair, which the standard sort treats as a tie.
- `MovieSort.SortInPlace`, `MoviesRoutes.SelectSearchResults` and `MoviesRoutes.Search` do not state which of two equal movies comes first. `Array.prototype.sort` is stable.
- `JsValues.IntToString` covers integers only. Numbers of magnitude 10^21 and above print in exponent notation there, and are not modelled.
- `MovieCard.DisplayYear` counts characters as code points. `slice` counts UTF-16 code units, so the two differ only on astral characters.
- `MoviesRoutes.DiscoverUrlReadsBack`, `MoviesRoutes.DiscoverValuesReachTmdb` and `MoviesRoutes.SearchUrlCarriesQuery` hold only for a page without `&` or `=`. The route pastes `page` into both TMDb URLs unencoded (backend/routes/movies.js:32 and :87), so a client can add parameters of its own. `MoviesRoutes.UnencodedPageAddsParameter` states what TMDb then reads from the discover URL. The text-search URL behaves the same way, and no separate lemma states it.
- `AuthRoutes.Register` and `AuthRoutes.Login` model `username` and `password` from `req.body` as optional strings (backend/routes/auth.js:9 and :49). A JSON body can hold any value, and these outcomes are not modelled:
  - a numeric password has no `length`, so it passes the length guard, and bcrypt then throws; the route answers 500, not 400;
  - an array password of six or more elements passes the length guard, with the same 500;
  - an object username such as `{"$ne": null}` reaches `findOne` as a query operator (backend/routes/auth.js:20 and :57).
- `FavoritesRoutes.PostFavorite` takes `movie.id` as an optional integer. Mongoose's casting of string ids, and its `CastError` on ids that are not ObjectIds, are not modelled.
- `Users.UserStore.Update` does not check the `googleId` and `email` indexes. The favorites routes never change either field.
- `QueryDecode.QueryValue` models the query parser's value decoding only. Nested keys, arrays and the parameter limit are not modelled. TMDb's own parser is taken to decode with `decodeURIComponent`.
- `MoviesRoutes.PageSendsAdultFlagFirst` and `MoviesRoutes.UnencodedPageAddsParameter` state which pairs TMDb receives and in what order. How TMDb resolves a name given twice is not known to the model. `Url.Lookup` takes the first pair, as `URLSearchParams.get` does. Adult results follow only if TMDb takes the first pair too; a server that keeps the last pair would apply the route's `include_adult=false`.
- `Home.HomePage.HandleSearch`: the request is one atomic step.
  - `loading` is true only while the request is in flight, which the model does not show.
  - The results appended are those held when the call starts. React's stale closure in the original is not modelled.
- The `useEffect` write-backs to `localStorage` are not modelled: dark mode, last search, favorites, genre, year and sort. Nor are `handleFilterReset`'s `removeItem` calls. The stored values feed the constructors instead.
- `MovieDetails.AmountShown` and `MovieDetails.RuntimeShown` are plain definitions of the JSX conditions, with no separate contract.
- Not modelled:
  - the trending request's client error message;
  - `fetchGenres`;
  - the `total_pages` and `results` shapes of malformed upstream answers.
- Not modelled because they do not compute anything: UI layout and styling, routing and `navigate('/')`, the dialog markup, ads, `backend/server.js`, and the unused `AuthContext` provider.
- The backend's and frontend's `API_BASE_URL` configuration is a parameter (`apiBase`).
- `MovieContext.Provider.showLoginDialog` and `SetShowLoginDialog` belong to the corrected design; see Findings. The original provider has neither.

## Findings

| source | as written | input that shows it | evidently intended | confidence | as-written member | corrected member |
|---|---|---|---|---|---|---|
| frontend/src/components/MovieCard.js:26 | The card passes `String(movie.id)` to `removeFavorite`, which keeps every favorite whose id is `!==` to it (frontend/src/context/MovieContext.js:95). A numeric id is never `===` a string. | Signed in, with favorites `[{ id: 550 }]`, click the heart of movie 550. | The favorite is removed. | not executed | MovieCard.FavoriteSurvivesToggleAsWritten | MovieCard.HandleFavoriteToggle |
| frontend/src/components/MovieCard.js:20 | The card calls `setShowLoginDialog`, which the provider's context value does not contain (frontend/src/context/MovieContext.js:106-121). The call throws a `TypeError`. | Signed out, click any heart. | The login dialog opens. | not executed | MovieCard.SignedOutToggleThrowsAsWritten | MovieContext.Provider.SetShowLoginDialog |
| backend/routes/auth.js:26 | `new User({ username, password })` sets no email, but the schema requires one (backend/models/User.js:7). `save` fails validation and the route answers 500. | POST /register with `{ username: "alice", password: "secret1" }` on an empty collection. | The user is stored and a token is returned. The next row's fix is needed as well. | not executed | AuthRoutes.RegisterAlwaysFailsAsWritten | AuthRoutes.RegisterThenLogin |
| backend/models/User.js:6-7 | `googleId` and `email` are `unique` but not `sparse`. A user without them is indexed under null, and only one such user may exist. Even with email optional, register would work only once. | With email optional, register `alice` and then `bob`: the second save fails on the duplicate null `googleId` and the route answers 500. | `sparse: true` on both indexes, so every password user can register. `Users.IntendedSchema` has email optional and both indexes sparse. | not executed | AuthRoutes.RegisterFailsOnNullIndex | AuthRoutes.RegisterThenLogin |
