/** The cryptographic libraries the server calls (bcrypt and JSON Web
    Tokens), as outcomes supplied from outside the model. */
module Crypto {

  /** `bcrypt.hash(password, salt)` and `bcrypt.compare(password, hash)`. */
  datatype Bcrypt = Bcrypt(hash: (string, string) -> string, compare: (string, string) -> bool)

  /** The one law relied on: a password matches any hash made from it. */
  ghost predicate Sound(b: Bcrypt) {
    forall p, salt :: b.compare(p, b.hash(p, salt))
  }

  /** The payload `{ userId }` every token is signed with. */
  datatype Claims = Claims(userId: string)

  /** What `jwt.verify(token, secret)` does: return the payload, or throw a
      `TokenExpiredError` or any other error. */
  datatype Verified = Decoded(claims: Claims) | Expired | Invalid
}
