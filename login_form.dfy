/** The sign-in form, frontend/src/components/Login.js: username, password,
    error and register-or-login mode, a submit that posts to the chosen
    endpoint, and the mode toggle. The server's answer is a parameter. */
module LoginForm {
  import opened JsValues

  /** What the POST to the auth route gives back: a token, or a failure with
      the `error` field of the response body, when there is one. */
  datatype ServerAnswer = Token(token: string) | Rejected(error: Option<string>)

  /** What a submit did besides updating the form: nothing, or a request to
      `url` after which `login(token)` and `navigate('/')` ran, or a request
      that failed. */
  datatype Submission =
    | NotSent
    | SignedIn(url: string, token: string)
    | Failed(url: string)

  const AuthApi := "http://localhost:5001/api/auth/"

  function Endpoint(isRegister: bool): string {
    if isRegister then "register" else "login"
  }

  class Form {
    var username: string
    var password: string
    var error: string
    var isRegister: bool

    constructor ()
      ensures username == "" && password == "" && error == "" && !isRegister
    {
      username, password, error, isRegister := "", "", "", false;
    }

    /** `handleSubmit`: the error is cleared first; empty fields are
        reported without a request; otherwise the credentials go to the
        register or login route, and a failure shows the server's message or
        a generic one. */
    method HandleSubmit(answer: ServerAnswer) returns (result: Submission)
      modifies this`error
      ensures username == "" || password == "" ==>
        result == NotSent && error == "Please enter both username and password"
      ensures username != "" && password != "" ==>
        && result != NotSent
        && result.url == AuthApi + Endpoint(isRegister)
        && (answer.Token? ==> result == SignedIn(result.url, answer.token) && error == "")
        && (answer.Rejected? ==>
              result.Failed? && error == if Truthy(answer.error) then answer.error.value else "An error occurred")
    {
      error := "";
      if username == "" || password == "" {
        error := "Please enter both username and password";
        return NotSent;
      }
      var endpoint := if isRegister then "register" else "login";
      var url := AuthApi + endpoint;
      match answer
      case Token(token) =>
        result := SignedIn(url, token);
      case Rejected(message) =>
        error := if Truthy(message) then message.value else "An error occurred";
        result := Failed(url);
    }

    /** The mode toggle: the other mode, with the form emptied. */
    method ToggleMode()
      modifies this`isRegister, this`error, this`username, this`password
      ensures isRegister == !old(isRegister)
      ensures error == "" && username == "" && password == ""
    {
      isRegister := !isRegister;
      error := "";
      username := "";
      password := "";
    }
  }
}
