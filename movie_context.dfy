/** The client's global store, `MovieProvider` in
    frontend/src/context/MovieContext.js: dark mode, the last search, the
    session and the favorites list, with the browser's `localStorage` entries
    for the token and the favorites. The answer of the server's
    `/api/auth/validate` is a parameter: the user it returns, or `None` when
    the request fails. */
module MovieContext {
  import opened JsValues
  import opened Movies
  import opened Http
  import opened FavoritesList

  /** The names the provider puts in the context value. */
  const ProvidedNames: seq<string> := [
    "isDarkMode", "toggleDarkMode", "lastSearch", "setLastSearch",
    "isAuthenticated", "setIsAuthenticated", "login", "logout",
    "favorites", "addFavorite", "removeFavorite", "clearFavorites",
    "setFavorites", "user"]

  /** Components read `showLoginDialog` and call `setShowLoginDialog`, but
      the provider supplies neither, so they are `undefined` there. */
  lemma LoginDialogStateNotProvided()
    ensures "setShowLoginDialog" !in ProvidedNames && "showLoginDialog" !in ProvidedNames
  {
    // the only names of the same lengths differ in one letter
    assert ProvidedNames[5][3] == 'I' && ProvidedNames[4][0] == 'i';
    forall i | 0 <= i < |ProvidedNames|
      ensures ProvidedNames[i] != "setShowLoginDialog" && ProvidedNames[i] != "showLoginDialog"
    {
      if i == 4 || i == 5 {
      } else {
        assert |ProvidedNames[i]| != 18 && |ProvidedNames[i]| != 15;
      }
    }
  }

  class Provider {
    var isDarkMode: bool
    var lastSearch: string
    var isAuthenticated: bool
    var favorites: seq<Movie>
    var user: Option<UserView>
    /** Whether the login dialog is open; the state the dialog and the cards
        expect the provider to hold. */
    var showLoginDialog: bool
    /** `localStorage.getItem('token')` and `localStorage.getItem('favorites')`. */
    var storedToken: Option<string>
    var storedFavorites: Option<seq<Movie>>

    /** The initial state, from what `localStorage` holds: dark mode off
        unless saved, the saved search or `''`, signed in exactly when a
        token is stored, the saved favorites or none, and no user yet. */
    constructor (savedDarkMode: Option<bool>, savedLastSearch: Option<string>,
                 savedToken: Option<string>, savedFavorites: Option<seq<Movie>>)
      ensures isDarkMode == savedDarkMode.GetOr(false)
      ensures lastSearch == savedLastSearch.GetOr("")
      ensures isAuthenticated <==> Truthy(savedToken)
      ensures favorites == savedFavorites.GetOr([])
      ensures user == None && !showLoginDialog
      ensures storedToken == savedToken && storedFavorites == savedFavorites
    {
      isDarkMode := if savedDarkMode.Some? then savedDarkMode.value else false;
      lastSearch := if Truthy(savedLastSearch) then savedLastSearch.value else "";
      isAuthenticated := Truthy(savedToken);
      favorites := if savedFavorites.Some? then savedFavorites.value else [];
      user := None;
      showLoginDialog := false;
      storedToken, storedFavorites := savedToken, savedFavorites;
    }

    /** `toggleDarkMode`: applying it twice gives the mode back. */
    method ToggleDarkMode()
      modifies this`isDarkMode
      ensures isDarkMode == !old(isDarkMode)
    {
      isDarkMode := !isDarkMode;
    }

    /** `logout`: the token and the favorites leave storage and the session
        is reset. */
    method Logout()
      modifies this`storedToken, this`storedFavorites, this`isAuthenticated, this`favorites, this`user
      ensures storedToken == None && storedFavorites == None
      ensures !isAuthenticated && favorites == [] && user == None
    {
      storedToken := None;
      storedFavorites := None;
      isAuthenticated := false;
      favorites := [];
      user := None;
    }

    /** `login(token)`: the token is stored, then validated; a validated
        token signs the user in, and a failed validation is a logout. */
    method Login(token: string, answer: Option<UserView>)
      modifies this`storedToken, this`storedFavorites, this`isAuthenticated, this`favorites, this`user
      ensures answer.Some? ==>
        storedToken == Some(token) && user == answer && isAuthenticated
        && favorites == old(favorites) && storedFavorites == old(storedFavorites)
      ensures answer.None? ==>
        storedToken == None && storedFavorites == None && !isAuthenticated && favorites == [] && user == None
    {
      storedToken := Some(token);
      if answer.Some? {
        user := answer;
        isAuthenticated := true;
      } else {
        Logout();
      }
    }

    /** The validation on mount: only a stored token is checked, with the
        same outcome as `login`. */
    method ValidateStoredToken(answer: Option<UserView>)
      modifies this`storedToken, this`storedFavorites, this`isAuthenticated, this`favorites, this`user
      ensures !Truthy(old(storedToken)) ==>
        storedToken == old(storedToken) && storedFavorites == old(storedFavorites)
        && isAuthenticated == old(isAuthenticated) && favorites == old(favorites) && user == old(user)
      ensures Truthy(old(storedToken)) && answer.Some? ==>
        storedToken == old(storedToken) && user == answer && isAuthenticated
        && favorites == old(favorites) && storedFavorites == old(storedFavorites)
      ensures Truthy(old(storedToken)) && answer.None? ==>
        storedToken == None && storedFavorites == None && !isAuthenticated && favorites == [] && user == None
    {
      if Truthy(storedToken) {
        if answer.Some? {
          user := answer;
          isAuthenticated := true;
        } else {
          Logout();
        }
      }
    }

    /** `addFavorite(movie)`. */
    method AddFavorite(movie: Movie)
      modifies this`favorites
      ensures favorites == AddIfAbsent(old(favorites), movie)
      ensures favorites == if HasId(old(favorites), movie.id) then old(favorites) else old(favorites) + [movie]
      ensures DistinctIds(old(favorites)) ==> DistinctIds(favorites)
    {
      if DistinctIds(favorites) {
        AddKeepsDistinct(favorites, movie);
      }
      favorites := AddIfAbsent(favorites, movie);
    }

    /** `removeFavorite(id)`. */
    method RemoveFavorite(id: JsId)
      modifies this`favorites
      ensures favorites == RemoveId(old(favorites), id)
      ensures !HasId(old(favorites), id) ==> favorites == old(favorites)
      ensures DistinctIds(old(favorites)) ==> DistinctIds(favorites)
    {
      if !HasId(favorites, id) {
        RemoveAbsentIsNoOp(favorites, id);
      }
      if DistinctIds(favorites) {
        RemoveKeepsDistinct(favorites, id);
      }
      favorites := RemoveId(favorites, id);
    }

    /** `clearFavorites`. */
    method ClearFavorites()
      modifies this`favorites
      ensures favorites == []
    {
      favorites := [];
    }

    /** `setShowLoginDialog(open)`: the setter the cards and the dialog call. */
    method SetShowLoginDialog(open: bool)
      modifies this`showLoginDialog
      ensures showLoginDialog == open
    {
      showLoginDialog := open;
    }
  }
}
