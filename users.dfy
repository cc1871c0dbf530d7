/** The user collection the auth and favorites routes read and write, with
    the constraints the schema of backend/models/User.js puts on a saved
    user. */
module Users {
  import opened JsValues

  /** A stored user. `password` is a bcrypt hash and is missing for users
      created through Google; favorites are TMDb movie ids, as numbers. */
  datatype User = User(
    id: string,
    username: string,
    password: Option<string>,
    googleId: Option<string>,
    email: Option<string>,
    favorites: seq<int>)

  /** The constraints of the schema that can refuse a save: whether email
      is `required`, and whether the unique indexes on `googleId` and
      `email` are sparse (a non-sparse unique index stores a missing value
      as null, so at most one user may lack the field). */
  datatype Schema = Schema(emailRequired: bool, sparseIndexes: bool)

  /** The schema as declared: username and email are required, and the
      unique indexes are not sparse. */
  const UserSchema := Schema(true, false)

  /** The schema the register route evidently expects: email is stored for
      Google users only, so it cannot be required, and users without a
      Google id or an email must not clash on the unique indexes. */
  const IntendedSchema := Schema(false, true)

  /** The declared schema with only the `required` on email dropped. */
  const EmailOptionalSchema := Schema(false, false)

  /** Mongoose validation: a required string must be present and non-empty. */
  predicate Accepts(schema: Schema, u: User) {
    u.username != "" && (schema.emailRequired ==> Truthy(u.email))
  }

  /** The unique indexes on `googleId` and `email` admit `u`: no stored
      user has the same value, where a missing value counts unless the
      indexes are sparse. */
  predicate IndexesAdmit(schema: Schema, users: seq<User>, u: User) {
    && (u.googleId.Some? || !schema.sparseIndexes ==>
          forall i :: 0 <= i < |users| ==> users[i].googleId != u.googleId)
    && (u.email.Some? || !schema.sparseIndexes ==>
          forall i :: 0 <= i < |users| ==> users[i].email != u.email)
  }

  /** `User.findOne({ username })`: the first user with that username. */
  function FindByUsername(users: seq<User>, username: string): (r: Option<User>)
    ensures r.Some? ==> r.value in users && r.value.username == username
    ensures r.None? <==> forall i :: 0 <= i < |users| ==> users[i].username != username
  {
    if users == [] then None
    else if users[0].username == username then Some(users[0])
    else FindByUsername(users[1..], username)
  }

  /** `User.findById(id)`: the user with that id. */
  function FindById(users: seq<User>, id: string): (r: Option<User>)
    ensures r.Some? ==> r.value in users && r.value.id == id
    ensures r.None? <==> forall i :: 0 <= i < |users| ==> users[i].id != id
  {
    if users == [] then None
    else if users[0].id == id then Some(users[0])
    else FindById(users[1..], id)
  }

  /** `users` with the entry whose id is `u.id` replaced by `u`. */
  function Replace(users: seq<User>, u: User): (r: seq<User>)
    ensures |r| == |users|
    ensures forall i :: 0 <= i < |users| ==> r[i] == if users[i].id == u.id then u else users[i]
  {
    if users == [] then []
    else [if users[0].id == u.id then u else users[0]] + Replace(users[1..], u)
  }

  /** After a replace, looking up the id finds the new value (if the id was
      there), and every other id finds what it found before. */
  lemma {:induction false} FindAfterReplace(users: seq<User>, u: User, id: string)
    ensures FindById(Replace(users, u), id)
            == if id != u.id then FindById(users, id)
               else if FindById(users, id).Some? then Some(u) else None
  {
    if users != [] {
      FindAfterReplace(users[1..], u, id);
      assert Replace(users, u)[1..] == Replace(users[1..], u);
    }
  }

  /** No two users share an id or a username (the `_id` index and the
      unique username index). */
  predicate UniqueKeys(users: seq<User>) {
    forall i, j :: 0 <= i < j < |users| ==> users[i].id != users[j].id && users[i].username != users[j].username
  }

  /** The users collection. */
  class UserStore {
    var users: seq<User>
    const schema: Schema

    constructor (schema: Schema)
      ensures users == [] && this.schema == schema
    {
      users := [];
      this.schema := schema;
    }

    /** `user.save()` on a new document: validation, then an insert that
        the unique indexes on `_id`, `username`, `googleId` and `email` may
        refuse. */
    method Insert(u: User) returns (ok: bool)
      modifies this`users
      ensures ok <==> Accepts(schema, u) && FindById(old(users), u.id).None?
                      && FindByUsername(old(users), u.username).None?
                      && IndexesAdmit(schema, old(users), u)
      ensures users == if ok then old(users) + [u] else old(users)
    {
      ok := Accepts(schema, u) && FindById(users, u.id).None? && FindByUsername(users, u.username).None?
            && IndexesAdmit(schema, users, u);
      if ok {
        users := users + [u];
      }
    }

    /** `user.save()` on a document read from the collection: validation,
        then the stored entry is overwritten. */
    method Update(u: User) returns (ok: bool)
      requires FindById(users, u.id).Some?
      modifies this`users
      ensures ok <==> Accepts(schema, u)
      ensures users == if ok then Replace(old(users), u) else old(users)
    {
      ok := Accepts(schema, u);
      if ok {
        users := Replace(users, u);
      }
    }
  }

  /** An insert the store accepts keeps ids and usernames unique. */
  lemma InsertKeepsKeysUnique(users: seq<User>, u: User)
    requires UniqueKeys(users)
    requires FindById(users, u.id).None? && FindByUsername(users, u.username).None?
    ensures UniqueKeys(users + [u])
  {
  }

  /** An update that keeps the username keeps ids and usernames unique. */
  lemma ReplaceKeepsKeysUnique(users: seq<User>, u: User)
    requires UniqueKeys(users)
    requires FindById(users, u.id).Some? && FindById(users, u.id).value.username == u.username
    ensures UniqueKeys(Replace(users, u))
  {
    var k :| 0 <= k < |users| && users[k] == FindById(users, u.id).value;
    forall i, j | 0 <= i < j < |users|
      ensures Replace(users, u)[i].id != Replace(users, u)[j].id
      ensures Replace(users, u)[i].username != Replace(users, u)[j].username
    {
      if users[i].id == u.id {
        assert i == k;
      } else if users[j].id == u.id {
        assert j == k;
      }
    }
  }
}
