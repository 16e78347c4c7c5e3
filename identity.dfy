/** What both revisions of the authentication service share: the user record,
    the collaborators the service calls but does not define (password hashing,
    JWT writing), the response shape and the lookups on the user table. */
module Identity {
  import opened Common

  datatype User = User(id: string, username: string, email: string, passwordHash: string)

  /** ASP.NET's `PasswordVerificationResult`. */
  datatype VerifyResult = Failed | Success | SuccessRehashNeeded

  /** The claims written into an access token: subject, email, unique name and,
      in the newer revision only, a token id (`jti`). */
  datatype Claims = Claims(sub: string, email: string, uniqueName: string, jti: Option<string>)

  /** The foreign calls of the service, fixed when it is built: the password
      hasher's hash and verify, and the signed JWT for given claims and expiry
      (HMAC-SHA256 over the configured key, issuer and audience). */
  datatype Collaborators = Collaborators(
    hash: string -> string,
    verify: (string, string) -> VerifyResult,
    writeJwt: (Claims, Tick) -> string)

  datatype AuthResponse = AuthResponse(token: string, expiration: Tick, refreshToken: string)

  const AccessTokenLifetime: int := 15 * Minute
  const RefreshTokenLifetime: int := 7 * Day

  const DuplicateEmailMessage := "User with this email already exists."
  const WrongCredentialsMessage := "Wrong email or password."
  const InvalidRefreshTokenMessage := "Invalid refresh token."

  predicate EmailTaken(users: seq<User>, email: string) {
    exists i :: 0 <= i < |users| && users[i].email == email
  }

  predicate UserIdTaken(users: seq<User>, id: string) {
    exists i :: 0 <= i < |users| && users[i].id == id
  }

  /** No two users share an email or an id. Registration keeps the first; the
      second is what `SingleOrDefault` on the user table relies on. */
  predicate UniqueUsers(users: seq<User>) {
    forall i, j :: 0 <= i < j < |users| ==> users[i].email != users[j].email && users[i].id != users[j].id
  }

  /** The user with the given email (`SingleOrDefault` on a table whose emails
      are unique). */
  function FindByEmail(users: seq<User>, email: string): (r: Option<User>)
    ensures r.None? <==> !EmailTaken(users, email)
    ensures r.Some? ==> r.value in users && r.value.email == email
  {
    match FirstWhere(users, (u: User) => u.email == email)
    case None => None
    case Some(i) => Some(users[i])
  }

  /** The user a refresh token belongs to (the `User` navigation property). */
  function FindById(users: seq<User>, id: string): (r: Option<User>)
    ensures r.None? <==> !UserIdTaken(users, id)
    ensures r.Some? ==> r.value in users && r.value.id == id
  {
    match FirstWhere(users, (u: User) => u.id == id)
    case None => None
    case Some(i) => Some(users[i])
  }

  /** `GetByUsernameAsync`: the first user with that username, if any. */
  function FindByUsername(users: seq<User>, username: string): (r: Option<User>)
    ensures r.None? <==> forall i :: 0 <= i < |users| ==> users[i].username != username
    ensures r.Some? ==> exists i :: 0 <= i < |users| && users[i] == r.value && r.value.username == username &&
                                   forall j :: 0 <= j < i ==> users[j].username != username
  {
    match FirstWhere(users, (u: User) => u.username == username)
    case None => None
    case Some(i) => Some(users[i])
  }

  /** The response both revisions return: a JWT for the user that expires
      fifteen minutes after `now`, and the refresh token the caller keeps. */
  function Respond(c: Collaborators, user: User, jti: Option<string>, now: Tick, refreshToken: string): (r: AuthResponse)
    ensures r.expiration == now + AccessTokenLifetime && r.refreshToken == refreshToken
  {
    var expires := now + AccessTokenLifetime;
    AuthResponse(c.writeJwt(Claims(user.id, user.email, user.username, jti), expires), expires, refreshToken)
  }
}
