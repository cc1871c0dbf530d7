/** The favorites routes of backend/routes/favoritesRoutes.js: their own
    token guard, and GET, POST and DELETE on the signed-in user's list of
    TMDb ids. Fetching a movie from TMDb is a parameter. */
module FavoritesRoutes {
  import opened JsValues
  import opened Movies
  import opened Crypto
  import opened Users
  import opened Http
  import opened Tokens

  // ----- the route's own guard -----

  /** The guard's decision: the second word of the header is the token; any
      verification failure, expiry included, is an invalid token. */
  function Guard(header: Option<string>, verify: string -> Verified): Gate<string> {
    var token := SecondWord(header);
    if !Truthy(token) then Refuse(Failure(401, "Unauthorized"))
    else
      match verify(token.value)
      case Decoded(claims) => Pass(claims.userId)
      case _ => Refuse(Failure(401, "Invalid token"))
  }

  /** The guard on one request: `req.userId` set and `next()` called once, or
      exactly one 401 sent. */
  method Authorize(ex: Exchange, header: Option<string>, verify: string -> Verified)
    modifies ex`userId, ex`sent, ex`nextCalls
    ensures match Guard(header, verify)
            case Pass(id) =>
              ex.userId == Some(id) && ex.nextCalls == old(ex.nextCalls) + 1 && ex.sent == old(ex.sent)
            case Refuse(resp) =>
              ex.userId == old(ex.userId) && ex.nextCalls == old(ex.nextCalls) && ex.sent == old(ex.sent) + [resp]
  {
    var token := SecondWord(header);
    if !Truthy(token) {
      ex.sent := ex.sent + [Failure(401, "Unauthorized")];
      return;
    }
    var decoded := verify(token.value);
    if decoded.Decoded? {
      ex.userId := Some(decoded.claims.userId);
      ex.nextCalls := ex.nextCalls + 1;
    } else {
      ex.sent := ex.sent + [Failure(401, "Invalid token")];
    }
  }

  /** Without a second word in the header the answer is 401 `Unauthorized`;
      with one, the request passes exactly when the token verifies, with the
      payload's user id, and is otherwise answered 401 `Invalid token`. */
  lemma GuardOutcomes(header: Option<string>, verify: string -> Verified)
    ensures !Truthy(SecondWord(header)) ==> Guard(header, verify) == Refuse(Failure(401, "Unauthorized"))
    ensures Truthy(SecondWord(header)) ==>
      match verify(SecondWord(header).value)
      case Decoded(claims) => Guard(header, verify) == Pass(claims.userId)
      case _ => Guard(header, verify) == Refuse(Failure(401, "Invalid token"))
  {
  }

  /** The header the client sends passes the token itself to the verifier. */
  lemma GuardReadsClientHeader(token: string, verify: string -> Verified)
    requires token != "" && ' ' !in token
    ensures Guard(Some(BearerHeader(token)), verify).Pass? <==> verify(token).Decoded?
  {
    ReadingsAgreeOnBearer(token);
  }

  // ----- fetching the movies of a list of ids -----

  /** `Promise.all(ids.map(fetch))`: every movie, in the order of the ids,
      or a failure as soon as one request fails. */
  function FetchAll(ids: seq<int>, fetch: int -> Option<Movie>): (r: Option<seq<Movie>>)
    ensures r.Some? ==> |r.value| == |ids| && forall i :: 0 <= i < |ids| ==> fetch(ids[i]) == Some(r.value[i])
    ensures r.None? <==> exists i :: 0 <= i < |ids| && fetch(ids[i]).None?
  {
    if ids == [] then Some([])
    else
      match fetch(ids[0])
      case None => None
      case Some(m) =>
        match FetchAll(ids[1..], fetch)
        case None => None
        case Some(rest) => Some([m] + rest)
  }

  /** `res.json({ favorites })`, or 500 when a fetch fails. */
  function FavoritesAnswer(ids: seq<int>, fetch: int -> Option<Movie>): Response {
    match FetchAll(ids, fetch)
    case None => Failure(500, "Server error")
    case Some(movies) => Response(200, FavoriteMovies(movies))
  }

  // ----- GET /favorites -----

  function GetFavorites(users: seq<User>, userId: string, fetch: int -> Option<Movie>): Response {
    match FindById(users, userId)
    case None => Failure(404, "User not found")
    case Some(user) => FavoritesAnswer(user.favorites, fetch)
  }

  // ----- POST /favorites -----

  /** `if (!favorites.includes(id)) favorites.push(id)`. */
  function WithFavorite(favorites: seq<int>, id: int): seq<int> {
    if id in favorites then favorites else favorites + [id]
  }

  predicate NoDuplicates(ids: seq<int>) {
    forall i, j :: 0 <= i < j < |ids| ==> ids[i] != ids[j]
  }

  /** The answer and the collection after POST /favorites. The body's
      `movie.id` is `None` when `movie` or its id is missing; 0 is falsy. */
  function PostResult(users: seq<User>, schema: Schema, userId: string, movieId: Option<int>,
                      fetch: int -> Option<Movie>): (Response, seq<User>)
  {
    if movieId.None? || movieId.value == 0 then (Failure(400, "Movie ID is required"), users)
    else
      match FindById(users, userId)
      case None => (Failure(404, "User not found"), users)
      case Some(user) =>
        if movieId.value in user.favorites then (FavoritesAnswer(user.favorites, fetch), users)
        else
          var updated := user.(favorites := user.favorites + [movieId.value]);
          if !Accepts(schema, updated) then (Failure(500, "Server error"), users)
          else (FavoritesAnswer(updated.favorites, fetch), Replace(users, updated))
  }

  /** POST /favorites: the user document is read, pushed to in place, and
      saved only when the id is new. */
  method PostFavorite(store: UserStore, userId: string, movieId: Option<int>, fetch: int -> Option<Movie>)
    returns (resp: Response)
    modifies store`users
    ensures (resp, store.users) == PostResult(old(store.users), store.schema, userId, movieId, fetch)
  {
    if movieId.None? || movieId.value == 0 {
      return Failure(400, "Movie ID is required");
    }
    var found := FindById(store.users, userId);
    if found.None? {
      return Failure(404, "User not found");
    }
    var user := found.value;
    if movieId.value !in user.favorites {
      user := user.(favorites := user.favorites + [movieId.value]);
      var saved := store.Update(user);
      if !saved {
        return Failure(500, "Server error");
      }
    }
    resp := FavoritesAnswer(user.favorites, fetch);
  }

  /** A missing or zero id is refused before the user is looked up, and the
      collection is left as it was. */
  lemma PostChecksIdFirst(users: seq<User>, schema: Schema, userId: string, movieId: Option<int>,
                          fetch: int -> Option<Movie>)
    requires movieId.None? || movieId.value == 0
    ensures PostResult(users, schema, userId, movieId, fetch) == (Failure(400, "Movie ID is required"), users)
  {
  }

  /** A successful POST leaves the user's list as `WithFavorite` of the old
      one, touches no other user, and answers with one movie per stored id,
      in stored order. */
  lemma PostAddsIfAbsent(users: seq<User>, schema: Schema, userId: string, id: int,
                         fetch: int -> Option<Movie>, other: string)
    requires FindById(users, userId).Some?
    ensures var (resp, after) := PostResult(users, schema, userId, Some(id), fetch);
      var favorites := WithFavorite(FindById(users, userId).value.favorites, id);
      resp.status == 200 && id != 0 ==>
        && FindById(after, userId).Some?
        && FindById(after, userId).value.favorites == favorites
        && (other != userId ==> FindById(after, other) == FindById(users, other))
        && |resp.body.favorites| == |favorites|
        && forall i :: 0 <= i < |favorites| ==> fetch(favorites[i]) == Some(resp.body.favorites[i])
  {
    var user := FindById(users, userId).value;
    if id != 0 && id !in user.favorites {
      var updated := user.(favorites := user.favorites + [id]);
      FindAfterReplace(users, updated, userId);
      FindAfterReplace(users, updated, other);
    }
  }

  /** Posting the same id twice stores what posting it once stores. */
  lemma PostIdempotent(users: seq<User>, schema: Schema, userId: string, movieId: Option<int>,
                       fetch: int -> Option<Movie>)
    ensures var once := PostResult(users, schema, userId, movieId, fetch).1;
      PostResult(once, schema, userId, movieId, fetch).1 == once
  {
    if movieId.Some? && movieId.value != 0 && FindById(users, userId).Some? {
      var user := FindById(users, userId).value;
      if movieId.value !in user.favorites {
        var updated := user.(favorites := user.favorites + [movieId.value]);
        if Accepts(schema, updated) {
          FindAfterReplace(users, updated, userId);
        }
      }
    }
  }

  /** A list that holds each id once still does after a POST. */
  lemma WithFavoriteKeepsNoDuplicates(favorites: seq<int>, id: int)
    requires NoDuplicates(favorites)
    ensures NoDuplicates(WithFavorite(favorites, id))
    ensures id in WithFavorite(favorites, id)
    ensures WithFavorite(WithFavorite(favorites, id), id) == WithFavorite(favorites, id)
  {
    assert id in favorites + [id] by {
      assert (favorites + [id])[|favorites|] == id;
    }
  }

  // ----- DELETE /favorites -----

  /** The answer and the collection after DELETE /favorites. */
  function ClearResult(users: seq<User>, schema: Schema, userId: string): (Response, seq<User>) {
    match FindById(users, userId)
    case None => (Failure(404, "User not found"), users)
    case Some(user) =>
      var cleared := user.(favorites := []);
      if !Accepts(schema, cleared) then (Failure(500, "Server error"), users)
      else (Response(200, FavoriteMovies([])), Replace(users, cleared))
  }

  /** DELETE /favorites: the list is reset in place and the user saved. */
  method ClearFavorites(store: UserStore, userId: string) returns (resp: Response)
    modifies store`users
    ensures (resp, store.users) == ClearResult(old(store.users), store.schema, userId)
  {
    var found := FindById(store.users, userId);
    if found.None? {
      return Failure(404, "User not found");
    }
    var user := found.value;
    user := user.(favorites := []);
    var saved := store.Update(user);
    if !saved {
      return Failure(500, "Server error");
    }
    resp := Response(200, FavoriteMovies([]));
  }

  /** A successful DELETE leaves the user's list empty, answers `[]`, and
      touches no other user. */
  lemma ClearEmpties(users: seq<User>, schema: Schema, userId: string, other: string)
    ensures var (resp, after) := ClearResult(users, schema, userId);
      resp.status == 200 ==>
        && resp.body == FavoriteMovies([])
        && FindById(after, userId).Some? && FindById(after, userId).value.favorites == []
        && (other != userId ==> FindById(after, other) == FindById(users, other))
  {
    if FindById(users, userId).Some? {
      var cleared := FindById(users, userId).value.(favorites := []);
      FindAfterReplace(users, cleared, userId);
      FindAfterReplace(users, cleared, other);
    }
  }

  /** An unknown user is answered 404 by GET, POST (with an id) and DELETE,
      and nothing is stored. */
  lemma UnknownUserNotFound(users: seq<User>, schema: Schema, userId: string, id: int,
                            fetch: int -> Option<Movie>)
    requires FindById(users, userId).None? && id != 0
    ensures GetFavorites(users, userId, fetch) == Failure(404, "User not found")
    ensures PostResult(users, schema, userId, Some(id), fetch) == (Failure(404, "User not found"), users)
    ensures ClearResult(users, schema, userId) == (Failure(404, "User not found"), users)
  {
  }
}
