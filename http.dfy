/** Responses the Express handlers send and the request/response pair the
    middleware works on. */
module Http {
  import opened JsValues
  import opened Movies
  import opened Crypto

  /** `{ username, id }` as the auth routes return a user. */
  datatype UserView = UserView(username: string, id: string)

  /** The JSON bodies the handlers send. */
  datatype Body =
    | ErrorBody(error: string)
    | MovieList(movies: seq<Movie>)
    | SearchPage(results: seq<Movie>, totalPages: int, totalResults: int)
    | FavoriteMovies(favorites: seq<Movie>)
    | Session(token: string, user: UserView)
    | Profile(user: UserView)

  datatype Response = Response(status: int, body: Body)

  /** `res.status(status).json({ error: message })`. */
  function Failure(status: int, message: string): Response {
    Response(status, ErrorBody(message))
  }

  /** What a middleware decides: let the request through with a value for
      the handler, or answer it. */
  datatype Gate<T> = Pass(value: T) | Refuse(response: Response)

  /** One request as a middleware sees it: what it stores on `req`, what it
      sends with `res`, and how often it calls `next()`. */
  class Exchange {
    var userId: Option<string>
    var user: Option<Claims>
    var sent: seq<Response>
    var nextCalls: nat

    constructor ()
      ensures userId == None && user == None && sent == [] && nextCalls == 0
    {
      userId, user, sent, nextCalls := None, None, [], 0;
    }
  }
}
