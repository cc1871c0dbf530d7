/** POST /register, POST /login and GET /validate (backend/routes/auth.js):
    guard-and-return steps over the user collection. Hashing, the salt,
    signing and verifying tokens and the new user's id come from outside. */
module AuthRoutes {
  import opened JsValues
  import opened JsStrings
  import opened Crypto
  import opened Users
  import opened Http
  import opened Tokens

  /** `req.body`: `{ username, password }`, either possibly missing. */
  datatype Credentials = Credentials(username: Option<string>, password: Option<string>)

  /** The shortest password register accepts, in UTF-16 code units. */
  const MinPasswordLength := 6

  /** `jwt.sign({ userId }, JWT_SECRET, { expiresIn: '1h' })`, or `None`
      when signing throws (no secret configured). */
  type Signer = string -> Option<string>

  // ----- POST /register -----

  /** The user register creates: the hash replaces the plaintext, and no
      email, Google id or favorites are set. */
  function NewUser(id: string, username: string, hash: string): User {
    User(id, username, Some(hash), None, None, [])
  }

  /** The answer and the collection after POST /register. */
  function RegisterResult(users: seq<User>, schema: Schema, body: Credentials, bcrypt: Bcrypt,
                          salt: string, newId: string, sign: Signer): (Response, seq<User>)
  {
    if !Truthy(body.username) || !Truthy(body.password) then
      (Failure(400, "Username and password are required"), users)
    else if Utf16Length(body.password.value) < MinPasswordLength then
      (Failure(400, "Password must be at least 6 characters"), users)
    else if FindByUsername(users, body.username.value).Some? then
      (Failure(400, "Username already exists"), users)
    else
      var u := NewUser(newId, body.username.value, bcrypt.hash(body.password.value, salt));
      if !(Accepts(schema, u) && FindById(users, newId).None? && IndexesAdmit(schema, users, u)) then
        (Failure(500, "Registration failed. Please try again."), users)
      else
        match sign(newId)
        case None => (Failure(500, "Registration failed. Please try again."), users + [u])
        case Some(token) => (Response(200, Session(token, UserView(u.username, newId))), users + [u])
  }

  /** POST /register. */
  method Register(store: UserStore, body: Credentials, bcrypt: Bcrypt, salt: string,
                  newId: string, sign: Signer) returns (resp: Response)
    modifies store`users
    ensures (resp, store.users) == RegisterResult(old(store.users), store.schema, body, bcrypt, salt, newId, sign)
  {
    if !Truthy(body.username) || !Truthy(body.password) {
      return Failure(400, "Username and password are required");
    }
    var username, password := body.username.value, body.password.value;
    if Utf16Length(password) < MinPasswordLength {
      return Failure(400, "Password must be at least 6 characters");
    }
    if FindByUsername(store.users, username).Some? {
      return Failure(400, "Username already exists");
    }
    var user := User(newId, username, Some(password), None, None, []);
    user := user.(password := Some(bcrypt.hash(password, salt)));
    var saved := store.Insert(user);
    if !saved {
      return Failure(500, "Registration failed. Please try again.");
    }
    var token := sign(newId);
    if token.None? {
      return Failure(500, "Registration failed. Please try again.");
    }
    resp := Response(200, Session(token.value, UserView(user.username, newId)));
  }

  /** The guards run in order: a missing field is reported before a short
      password, and a short password before a taken username; none of them
      stores anything. */
  lemma RegisterGuards(users: seq<User>, schema: Schema, body: Credentials, bcrypt: Bcrypt,
                       salt: string, newId: string, sign: Signer)
    ensures var (resp, after) := RegisterResult(users, schema, body, bcrypt, salt, newId, sign);
      && (!Truthy(body.username) || !Truthy(body.password) ==>
            resp == Failure(400, "Username and password are required") && after == users)
      && (Truthy(body.username) && Truthy(body.password) && Utf16Length(body.password.value) < 6 ==>
            resp == Failure(400, "Password must be at least 6 characters") && after == users)
      && (Truthy(body.username) && Truthy(body.password) && Utf16Length(body.password.value) >= 6
          && FindByUsername(users, body.username.value).Some? ==>
            resp == Failure(400, "Username already exists") && after == users)
      && (resp.status == 400 ==> after == users)
  {
  }

  /** The length check counts UTF-16 code units: a password of fewer than
      six characters from the Basic Multilingual Plane is refused, while three
      characters outside it already count as six. */
  lemma PasswordLengthInCodeUnits(users: seq<User>, schema: Schema, username: string, password: string,
                                  bcrypt: Bcrypt, salt: string, newId: string, sign: Signer)
    requires username != "" && password != "" && |password| < 6
    ensures (forall i :: 0 <= i < |password| ==> password[i] as int <= 0xFFFF) ==>
      RegisterResult(users, schema, Credentials(Some(username), Some(password)), bcrypt, salt, newId, sign)
      == (Failure(400, "Password must be at least 6 characters"), users)
    ensures Utf16Length("\U{1F600}\U{1F600}\U{1F600}") == 6
  {
    var e := "\U{1F600}\U{1F600}\U{1F600}";
    assert e[1..][1..][1..] == [];
  }

  /** A successful register adds exactly one user, holding the hash of the
      password, and answers with a token and the user's name and id; every
      other answer leaves the collection as it was, except a signing failure
      after the save. */
  lemma RegisterSuccess(users: seq<User>, schema: Schema, body: Credentials, bcrypt: Bcrypt,
                        salt: string, newId: string, sign: Signer)
    ensures var (resp, after) := RegisterResult(users, schema, body, bcrypt, salt, newId, sign);
      resp.status == 200 ==>
        && Truthy(body.username) && Truthy(body.password)
        && after == users + [NewUser(newId, body.username.value, bcrypt.hash(body.password.value, salt))]
        && resp.body == Session(sign(newId).value, UserView(body.username.value, newId))
    ensures var (resp, after) := RegisterResult(users, schema, body, bcrypt, salt, newId, sign);
      resp.status != 200 ==> after == users || (sign(newId).None? && |after| == |users| + 1)
    ensures var (resp, after) := RegisterResult(users, schema, body, bcrypt, salt, newId, sign);
      resp.status == 200 || resp.status == 400 || resp.status == 500
  {
  }

  /** Registration keeps ids and usernames unique. */
  lemma RegisterKeepsKeysUnique(users: seq<User>, schema: Schema, body: Credentials, bcrypt: Bcrypt,
                                salt: string, newId: string, sign: Signer)
    requires UniqueKeys(users)
    ensures UniqueKeys(RegisterResult(users, schema, body, bcrypt, salt, newId, sign).1)
  {
    var after := RegisterResult(users, schema, body, bcrypt, salt, newId, sign).1;
    if after != users {
      InsertKeepsKeysUnique(users, after[|users|]);
      assert after == users + [after[|users|]];
    }
  }

  /** As declared, the schema requires an email that register never sets,
      so every register that passes the guards fails to save: no user is
      ever stored and the answer is never a success. */
  lemma RegisterAlwaysFailsAsWritten(users: seq<User>, body: Credentials, bcrypt: Bcrypt,
                                     salt: string, newId: string, sign: Signer)
    ensures RegisterResult(users, UserSchema, body, bcrypt, salt, newId, sign).1 == users
    ensures RegisterResult(users, UserSchema, body, bcrypt, salt, newId, sign).0.status != 200
    ensures Truthy(body.username) && Truthy(body.password) && Utf16Length(body.password.value) >= 6
            && FindByUsername(users, body.username.value).None? ==>
            RegisterResult(users, UserSchema, body, bcrypt, salt, newId, sign).0
            == Failure(500, "Registration failed. Please try again.")
  {
  }

  /** With the `required` on email dropped but the unique indexes left as
      declared, the first user register creates takes the null slot of the
      `googleId` index: once any stored user lacks a Google id, every later
      register fails to save and stores nothing. */
  lemma RegisterFailsOnNullIndex(users: seq<User>, body: Credentials, bcrypt: Bcrypt,
                                 salt: string, newId: string, sign: Signer, k: nat)
    requires k < |users| && users[k].googleId.None?
    ensures RegisterResult(users, EmailOptionalSchema, body, bcrypt, salt, newId, sign).1 == users
    ensures RegisterResult(users, EmailOptionalSchema, body, bcrypt, salt, newId, sign).0.status != 200
  {
    if Truthy(body.username) && Truthy(body.password) {
      var u := NewUser(newId, body.username.value, bcrypt.hash(body.password.value, salt));
      assert !IndexesAdmit(EmailOptionalSchema, users, u) by {
        assert users[k].googleId == u.googleId;
      }
    }
  }

  /** Under the same schema the first register into an empty collection
      does save, so the failure above starts with the second user. */
  lemma FirstRegisterSavesWithoutSparse(body: Credentials, bcrypt: Bcrypt,
                                        salt: string, newId: string, sign: Signer)
    requires Truthy(body.username) && Truthy(body.password) && Utf16Length(body.password.value) >= 6
    ensures RegisterResult([], EmailOptionalSchema, body, bcrypt, salt, newId, sign).1
            == [NewUser(newId, body.username.value, bcrypt.hash(body.password.value, salt))]
  {
  }

  // ----- POST /login -----

  /** POST /login. bcrypt throws on a user without a stored hash, which the
      handler answers as a failed login. */
  function Login(users: seq<User>, body: Credentials, bcrypt: Bcrypt, sign: Signer): Response {
    if !Truthy(body.username) || !Truthy(body.password) then
      Failure(400, "Username and password are required")
    else
      match FindByUsername(users, body.username.value)
      case None => Failure(400, "Invalid username or password")
      case Some(user) =>
        if user.password.None? then Failure(500, "Login failed. Please try again.")
        else if !bcrypt.compare(body.password.value, user.password.value) then
          Failure(400, "Invalid username or password")
        else
          match sign(user.id)
          case None => Failure(500, "Login failed. Please try again.")
          case Some(token) => Response(200, Session(token, UserView(user.username, user.id)))
  }

  /** An unknown username and a wrong password get the same answer, so the
      answer does not reveal which usernames exist. */
  lemma LoginUniformRefusal(users: seq<User>, username: string, password: string, bcrypt: Bcrypt, sign: Signer)
    requires username != "" && password != ""
    requires match FindByUsername(users, username)
             case None => true
             case Some(user) => user.password.Some? && !bcrypt.compare(password, user.password.value)
    ensures Login(users, Credentials(Some(username), Some(password)), bcrypt, sign)
            == Failure(400, "Invalid username or password")
  {
  }

  /** Login succeeds exactly when the user exists, has a hash the password
      matches, and a token can be signed; it then names that user. */
  lemma LoginSucceedsIff(users: seq<User>, body: Credentials, bcrypt: Bcrypt, sign: Signer)
    ensures Login(users, body, bcrypt, sign).status == 200 <==>
      && Truthy(body.username) && Truthy(body.password)
      && FindByUsername(users, body.username.value).Some?
      && FindByUsername(users, body.username.value).value.password.Some?
      && bcrypt.compare(body.password.value, FindByUsername(users, body.username.value).value.password.value)
      && sign(FindByUsername(users, body.username.value).value.id).Some?
    ensures Login(users, body, bcrypt, sign).status == 200 ==>
      Login(users, body, bcrypt, sign).body.user.username == body.username.value
  {
  }

  /** With a sound bcrypt and a schema that lets the register route save,
      logging in with the credentials just registered succeeds and names
      the new user. */
  lemma RegisterThenLogin(users: seq<User>, body: Credentials, bcrypt: Bcrypt,
                          salt: string, newId: string, sign: Signer)
    requires Sound(bcrypt)
    requires RegisterResult(users, IntendedSchema, body, bcrypt, salt, newId, sign).0.status == 200
    ensures var after := RegisterResult(users, IntendedSchema, body, bcrypt, salt, newId, sign).1;
      Login(after, body, bcrypt, sign) == Response(200, Session(sign(newId).value, UserView(body.username.value, newId)))
  {
    var after := RegisterResult(users, IntendedSchema, body, bcrypt, salt, newId, sign).1;
    var u := NewUser(newId, body.username.value, bcrypt.hash(body.password.value, salt));
    assert after == users + [u];
    FindAfterInsert(users, u);
    assert bcrypt.compare(body.password.value, bcrypt.hash(body.password.value, salt));
  }

  /** A username absent before an insert is found as the inserted user. */
  lemma {:induction false} FindAfterInsert(users: seq<User>, u: User)
    requires FindByUsername(users, u.username).None?
    ensures FindByUsername(users + [u], u.username) == Some(u)
  {
    if users != [] {
      assert (users + [u])[1..] == users[1..] + [u];
      FindAfterInsert(users[1..], u);
    }
  }

  // ----- GET /validate -----

  /** GET /validate. `verify` stands for `jwt.verify` with the configured
      secret; a user id that does not name a user, like one that is not a
      valid id, is an invalid token. */
  function Validate(users: seq<User>, header: Option<string>, verify: string -> Verified): Response {
    var token := SecondWord(header);
    if !Truthy(token) then Failure(401, "No token provided")
    else
      match verify(token.value)
      case Expired => Failure(401, "Token expired")
      case Invalid => Failure(401, "Invalid token")
      case Decoded(claims) =>
        match FindById(users, claims.userId)
        case None => Failure(401, "Invalid token")
        case Some(user) => Response(200, Profile(UserView(user.username, user.id)))
  }

  /** Every failure of /validate is a 401, and which one is decided by the
      token: none, expired, invalid, or naming no user. */
  lemma ValidateOutcomes(users: seq<User>, header: Option<string>, verify: string -> Verified)
    ensures var r := Validate(users, header, verify);
      r.status == 200 || r.status == 401
    ensures !Truthy(SecondWord(header)) ==> Validate(users, header, verify) == Failure(401, "No token provided")
    ensures Truthy(SecondWord(header)) ==>
      var v := verify(SecondWord(header).value);
      && (v.Expired? ==> Validate(users, header, verify) == Failure(401, "Token expired"))
      && (v.Invalid? ==> Validate(users, header, verify) == Failure(401, "Invalid token"))
      && (v.Decoded? && FindById(users, v.claims.userId).None? ==>
            Validate(users, header, verify) == Failure(401, "Invalid token"))
      && (v.Decoded? && FindById(users, v.claims.userId).Some? ==>
            Validate(users, header, verify).body.user.id == v.claims.userId)
  {
  }

  /** The header the client builds from a token without spaces reaches the
      verifier with that token. */
  lemma ValidateReadsClientHeader(users: seq<User>, token: string, verify: string -> Verified)
    requires token != "" && ' ' !in token
    ensures Validate(users, Some(BearerHeader(token)), verify)
            == match verify(token)
               case Expired => Failure(401, "Token expired")
               case Invalid => Failure(401, "Invalid token")
               case Decoded(claims) =>
                 match FindById(users, claims.userId)
                 case None => Failure(401, "Invalid token")
                 case Some(user) => Response(200, Profile(UserView(user.username, user.id)))
  {
    ReadingsAgreeOnBearer(token);
  }
}
