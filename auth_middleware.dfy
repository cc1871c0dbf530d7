/** The JWT middleware of backend/middleware/auth.js: check that a secret is
    configured, take the token out of the `Authorization` header, verify it,
    and either store the payload on the request and call `next()` or answer. */
module AuthMiddleware {
  import opened JsValues
  import opened JsStrings
  import opened Crypto
  import opened Http
  import opened Tokens

  /** The decision, from the configured secret, the header and what
      `jwt.verify` does with the token. */
  function Decide(secret: Option<string>, header: Option<string>, verify: string -> Verified): Gate<Claims> {
    if !Truthy(secret) then Refuse(Failure(500, "Server configuration error"))
    else
      var token := StripBearer(header);
      if !Truthy(token) then Refuse(Failure(401, "Access denied"))
      else
        match verify(token.value)
        case Decoded(claims) => Pass(claims)
        case Expired => Refuse(Failure(401, "Token expired"))
        case Invalid => Refuse(Failure(401, "Invalid token"))
  }

  /** The middleware on one request: on success `req.user` is set and
      `next()` called once, and nothing is sent; otherwise exactly one
      response is sent and `next()` is not called. */
  method Handle(ex: Exchange, secret: Option<string>, header: Option<string>, verify: string -> Verified)
    modifies ex`user, ex`sent, ex`nextCalls
    ensures match Decide(secret, header, verify)
            case Pass(claims) =>
              ex.user == Some(claims) && ex.nextCalls == old(ex.nextCalls) + 1 && ex.sent == old(ex.sent)
            case Refuse(resp) =>
              ex.user == old(ex.user) && ex.nextCalls == old(ex.nextCalls) && ex.sent == old(ex.sent) + [resp]
  {
    if !Truthy(secret) {
      ex.sent := ex.sent + [Failure(500, "Server configuration error")];
      return;
    }
    var token := StripBearer(header);
    if !Truthy(token) {
      ex.sent := ex.sent + [Failure(401, "Access denied")];
      return;
    }
    var decoded := verify(token.value);
    match decoded
    case Decoded(claims) =>
      ex.user := Some(claims);
      ex.nextCalls := ex.nextCalls + 1;
    case Expired =>
      ex.sent := ex.sent + [Failure(401, "Token expired")];
    case Invalid =>
      ex.sent := ex.sent + [Failure(401, "Invalid token")];
  }

  /** Without a secret every request is answered 500, whatever it carries;
      with one, every refusal is a 401. */
  lemma SecretCheckedFirst(secret: Option<string>, header: Option<string>, verify: string -> Verified)
    ensures !Truthy(secret) ==> Decide(secret, header, verify) == Refuse(Failure(500, "Server configuration error"))
    ensures Truthy(secret) && Decide(secret, header, verify).Refuse? ==>
            Decide(secret, header, verify).response.status == 401
  {
  }

  /** A request gets through exactly when a secret is configured, the header
      leaves a non-empty token, and that token verifies; it then carries the
      token's own payload. */
  lemma PassIff(secret: Option<string>, header: Option<string>, verify: string -> Verified, claims: Claims)
    ensures Decide(secret, header, verify) == Pass(claims) <==>
      Truthy(secret) && Truthy(StripBearer(header)) && verify(StripBearer(header).value) == Decoded(claims)
  {
  }

  /** The header the client sends, `Bearer <token>`, hands the verifier that
      token, spaces and all. */
  lemma ClientHeaderVerified(secret: Option<string>, token: string, verify: string -> Verified)
    requires Truthy(secret) && token != ""
    ensures Decide(secret, Some(BearerHeader(token)), verify)
            == match verify(token)
               case Decoded(claims) => Pass(claims)
               case Expired => Refuse(Failure(401, "Token expired"))
               case Invalid => Refuse(Failure(401, "Invalid token"))
  {
    ReplaceLeadingPattern("Bearer ", token, "");
    assert "" + token == token;
  }

  /** A header without `Bearer ` anywhere in it is taken whole as the
      token; a missing header is refused before verification. */
  lemma BareHeaderVerified(secret: Option<string>, h: string, verify: string -> Verified)
    requires Truthy(secret) && h != "" && forall j :: !OccursAt(h, "Bearer ", j)
    ensures Decide(secret, Some(h), verify).Pass? <==> verify(h).Decoded?
    ensures Decide(secret, None, verify) == Refuse(Failure(401, "Access denied"))
  {
    StripWithoutBearer(h);
  }
}
