/** A movie tile, frontend/src/components/MovieCard.js: whether the movie is
    a favorite, what the heart button does, and the poster and year shown. */
module MovieCard {
  import opened JsValues
  import opened JsStrings
  import opened Lists
  import opened Movies
  import opened FavoritesList
  import opened MovieContext

  /** `favorites.some(fav => String(fav.id) === String(movie.id))`. */
  predicate IsFavorite(favorites: seq<Movie>, movie: Movie) {
    exists i :: 0 <= i < |favorites| && ToJsString(favorites[i].id) == ToJsString(movie.id)
  }

  /** Every id a number, as TMDb sends them. */
  predicate NumericIds(favorites: seq<Movie>) {
    forall i :: 0 <= i < |favorites| ==> favorites[i].id.Num?
  }

  /** The card's test agrees with the store's `===` test whenever the ids
      are numbers, and is implied by it always. */
  lemma IsFavoriteMatchesStore(favorites: seq<Movie>, movie: Movie)
    ensures HasId(favorites, movie.id) ==> IsFavorite(favorites, movie)
    ensures NumericIds(favorites) && movie.id.Num? ==> (IsFavorite(favorites, movie) <==> HasId(favorites, movie.id))
  {
    if HasId(favorites, movie.id) {
      var i :| 0 <= i < |favorites| && StrictEquals(favorites[i].id, movie.id);
      StringEqualityOfIds(favorites[i].id, movie.id);
    }
    if NumericIds(favorites) && movie.id.Num? && IsFavorite(favorites, movie) {
      var i :| 0 <= i < |favorites| && ToJsString(favorites[i].id) == ToJsString(movie.id);
      StringEqualityOfIds(favorites[i].id, movie.id);
    }
  }

  // ----- the heart button as written -----

  /** What `handleFavoriteToggle` ends up doing. */
  datatype ToggleCall = OpenLoginDialog | ThrowsTypeError | Remove(id: JsId) | Add(movie: Movie)

  /** The handler as written: when signed out it calls the dialog setter it
      read from the context, and it removes a favorite by the string id. */
  function ToggleAsWritten(isAuthenticated: bool, favorites: seq<Movie>, movie: Movie): ToggleCall {
    if !isAuthenticated then
      if "setShowLoginDialog" in ProvidedNames then OpenLoginDialog else ThrowsTypeError
    else if IsFavorite(favorites, movie) then Remove(Str(ToJsString(movie.id)))
    else Add(movie)
  }

  /** Signed out, the heart button throws instead of opening the dialog,
      since the setter is `undefined`. */
  lemma SignedOutToggleThrowsAsWritten(favorites: seq<Movie>, movie: Movie)
    ensures ToggleAsWritten(false, favorites, movie) == ThrowsTypeError
  {
    LoginDialogStateNotProvided();
  }

  /** Signed in, un-favoriting passes a string id to `removeFavorite`, which
      compares with `!==`: a favorite with a numeric id is never removed. */
  lemma StringIdRemovesNoNumericFavorite(favorites: seq<Movie>, movie: Movie)
    requires NumericIds(favorites)
    ensures ToggleAsWritten(true, favorites, movie).Remove? ==>
      RemoveId(favorites, ToggleAsWritten(true, favorites, movie).id) == favorites
  {
    var id := Str(ToJsString(movie.id));
    forall i | 0 <= i < |favorites| ensures !StrictEquals(favorites[i].id, id) {
    }
    RemoveAbsentIsNoOp(favorites, id);
  }

  /** The smallest case: the movie 550 as the only favorite stays a favorite
      after its heart is clicked. */
  lemma FavoriteSurvivesToggleAsWritten(movie: Movie)
    requires movie.id == Num(550)
    ensures ToggleAsWritten(true, [movie], movie) == Remove(Str("550"))
    ensures RemoveId([movie], Str("550")) == [movie]
    ensures IsFavorite(RemoveId([movie], Str("550")), movie)
  {
    MixedIdsPrintAlike();
    assert ToJsString([movie][0].id) == ToJsString(movie.id);
    StringIdRemovesNoNumericFavorite([movie], movie);
  }

  // ----- the heart button as intended -----

  /** The handler as intended: signed out it opens the login dialog and
      leaves the favorites alone; signed in it removes the favorite by the
      movie's own id, or adds the movie. */
  method HandleFavoriteToggle(p: Provider, movie: Movie)
    modifies p`showLoginDialog, p`favorites
    ensures !old(p.isAuthenticated) ==> p.showLoginDialog && p.favorites == old(p.favorites)
    ensures old(p.isAuthenticated) ==> p.showLoginDialog == old(p.showLoginDialog)
    ensures old(p.isAuthenticated) && IsFavorite(old(p.favorites), movie) ==>
      p.favorites == RemoveId(old(p.favorites), movie.id)
    ensures old(p.isAuthenticated) && !IsFavorite(old(p.favorites), movie) ==>
      p.favorites == old(p.favorites) + [movie]
  {
    if !p.isAuthenticated {
      p.SetShowLoginDialog(true);
      return;
    }
    if IsFavorite(p.favorites, movie) {
      p.RemoveFavorite(movie.id);
    } else {
      IsFavoriteMatchesStore(p.favorites, movie);
      p.AddFavorite(movie);
    }
  }

  /** With numeric ids the intended handler flips the heart: a favorite
      stops being one, anything else becomes one. */
  lemma ToggleFlips(favorites: seq<Movie>, movie: Movie)
    requires NumericIds(favorites) && movie.id.Num?
    ensures IsFavorite(favorites, movie) ==> !IsFavorite(RemoveId(favorites, movie.id), movie)
    ensures !IsFavorite(favorites, movie) ==> IsFavorite(favorites + [movie], movie)
  {
    var rest := RemoveId(favorites, movie.id);
    RemoveDropsExactly(favorites, movie.id, movie);
    forall i | 0 <= i < |rest| ensures rest[i].id.Num? {
      FilterMembership(OtherThan(movie.id), favorites, rest[i]);
    }
    IsFavoriteMatchesStore(rest, movie);
    assert (favorites + [movie])[|favorites|] == movie;
  }

  // ----- what the card shows -----

  const PosterBase := "https://image.tmdb.org/t/p/w500"
  const PosterPlaceholder := "https://via.placeholder.com/500x750?text=No+Image"

  /** The poster image: the w500 rendition when there is a poster path,
      the placeholder otherwise. */
  function PosterSrc(movie: Movie): (r: string)
    ensures HasPoster(movie) ==> StartsWith(r, PosterBase) && r[|PosterBase|..] == movie.posterPath.value
    ensures !HasPoster(movie) ==> r == PosterPlaceholder
  {
    if HasPoster(movie) then PosterBase + movie.posterPath.value else PosterPlaceholder
  }

  /** `movie.release_date?.slice(0, 4) || 'N/A'`. */
  function DisplayYear(movie: Movie): (r: string)
    ensures !Truthy(movie.releaseDate) ==> r == "N/A"
    ensures Truthy(movie.releaseDate) ==>
      r <= movie.releaseDate.value && |r| == if |movie.releaseDate.value| < 4 then |movie.releaseDate.value| else 4
  {
    var year := if movie.releaseDate.Some? then Some(Take(movie.releaseDate.value, 4)) else None;
    if Truthy(year) then year.value else "N/A"
  }
}
