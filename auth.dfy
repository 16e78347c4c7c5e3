/** The authentication service of the current revision: registration, login
    and refresh-token rotation over the user and refresh-token tables. A
    refresh-token record goes from active to used exactly once; a used or
    invalidated record is never redeemed again. */
module Auth {
  import opened Common
  import opened Identity

  datatype RefreshToken = RefreshToken(
    id: Guid,
    token: string,
    jwtId: string,
    creationDate: Tick,
    expiryDate: Tick,
    used: bool,
    invalidated: bool,
    userId: string)

  /** The values the source draws from `Guid.NewGuid()` for one new refresh
      token: the record id, the secret, and the id of the JWT issued with it. */
  datatype FreshToken = FreshToken(id: Guid, secret: string, jti: string)

  /** The two tables the service writes. */
  datatype Ledger = Ledger(users: seq<User>, refreshTokens: seq<RefreshToken>)

  /** The outcome of one call: the tables afterwards and the response. */
  datatype Step = Step(ledger: Ledger, response: Result<AuthResponse>)

  /** What the tables keep between calls: users are unique by email and id,
      refresh tokens are unique by secret and id, and every token belongs to a
      stored user. */
  predicate Consistent(l: Ledger) {
    && UniqueUsers(l.users)
    && (forall i, j :: 0 <= i < j < |l.refreshTokens| ==>
          l.refreshTokens[i].token != l.refreshTokens[j].token && l.refreshTokens[i].id != l.refreshTokens[j].id)
    && (forall i :: 0 <= i < |l.refreshTokens| ==> UserIdTaken(l.users, l.refreshTokens[i].userId))
  }

  /** The generated values are new to the token table. */
  predicate FreshFor(l: Ledger, f: FreshToken) {
    forall i :: 0 <= i < |l.refreshTokens| ==> l.refreshTokens[i].token != f.secret && l.refreshTokens[i].id != f.id
  }

  /** A record the refresh endpoint accepts at time `now`. The expiry test is a
      strict `<`, so a token is still accepted at its expiry instant. */
  predicate Redeemable(t: RefreshToken, now: Tick) {
    !t.used && !t.invalidated && !(t.expiryDate < now)
  }

  /** The record written for a new sign-in or refresh: it carries the fresh
      id, secret and JWT id, belongs to `userId`, and is accepted exactly up to
      and including seven days after `now`. */
  function Issue(f: FreshToken, userId: string, now: Tick): (t: RefreshToken)
    ensures t.id == f.id && t.token == f.secret && t.jwtId == f.jti && t.userId == userId
    ensures t.creationDate == now
    ensures forall at :: Redeemable(t, at) <==> at <= now + RefreshTokenLifetime
  {
    RefreshToken(f.id, f.secret, f.jti, now, now + RefreshTokenLifetime, false, false, userId)
  }

  /** The record with the given secret (`SingleOrDefault` on the token column). */
  function FindBySecret(tokens: seq<RefreshToken>, secret: string): (r: Option<nat>)
    ensures r.Some? ==> r.value < |tokens| && tokens[r.value].token == secret
    ensures r.None? <==> forall i :: 0 <= i < |tokens| ==> tokens[i].token != secret
  {
    FirstWhere(tokens, (t: RefreshToken) => t.token == secret)
  }

  /** `RegisterAsync`. */
  function RegisterStep(c: Collaborators, l: Ledger, username: string, email: string, password: string,
                        userId: string, f: FreshToken, now: Tick): (s: Step)
    requires Consistent(l) && FreshFor(l, f) && !UserIdTaken(l.users, userId)
    ensures Consistent(s.ledger)
    ensures s.response.Fail? <==> EmailTaken(l.users, email)
    ensures s.response.Fail? ==> s.response.error == BadRequest(DuplicateEmailMessage) && s.ledger == l
    ensures s.response.Ok? ==>
      && |s.ledger.users| == |l.users| + 1 && s.ledger.users[..|l.users|] == l.users
      && |s.ledger.refreshTokens| == |l.refreshTokens| + 1 && s.ledger.refreshTokens[..|l.refreshTokens|] == l.refreshTokens
      && var u := s.ledger.users[|l.users|];
         var t := s.ledger.refreshTokens[|l.refreshTokens|];
         && u == User(userId, username, email, c.hash(password))
         && t == Issue(f, u.id, now) && !t.used && !t.invalidated && Redeemable(t, now)
         && t.creationDate == now && t.expiryDate == now + RefreshTokenLifetime
         && s.response.value.refreshToken == t.token == f.secret
         && s.response.value.expiration == now + AccessTokenLifetime
         && s.response.value.token == c.writeJwt(Claims(u.id, email, username, Some(t.jwtId)), now + AccessTokenLifetime)
  {
    if EmailTaken(l.users, email) then
      Step(l, Fail(BadRequest(DuplicateEmailMessage)))
    else
      var user := User(userId, username, email, c.hash(password));
      var token := Issue(f, user.id, now);
      var users := l.users + [user];
      assert UserIdTaken(users, userId) by { assert users[|l.users|].id == userId; }
      assert forall i :: 0 <= i < |l.refreshTokens| ==> UserIdTaken(users, l.refreshTokens[i].userId) by {
        forall i | 0 <= i < |l.refreshTokens| ensures UserIdTaken(users, l.refreshTokens[i].userId) {
          var k :| 0 <= k < |l.users| && l.users[k].id == l.refreshTokens[i].userId;
          assert users[k] == l.users[k];
        }
      }
      Step(Ledger(users, l.refreshTokens + [token]), Ok(Respond(c, user, Some(f.jti), now, token.token)))
  }

  /** `LoginAsync`. */
  function LoginStep(c: Collaborators, l: Ledger, email: string, password: string, f: FreshToken, now: Tick): (s: Step)
    requires Consistent(l) && FreshFor(l, f)
    ensures Consistent(s.ledger) && s.ledger.users == l.users
    ensures s.response.Fail? <==>
      forall i :: 0 <= i < |l.users| && l.users[i].email == email ==> c.verify(l.users[i].passwordHash, password) == Failed
    ensures s.response.Fail? ==> s.response.error == Unauthorized(WrongCredentialsMessage) && s.ledger == l
    ensures s.response.Ok? ==>
      && |s.ledger.refreshTokens| == |l.refreshTokens| + 1 && s.ledger.refreshTokens[..|l.refreshTokens|] == l.refreshTokens
      && var t := s.ledger.refreshTokens[|l.refreshTokens|];
         && (exists u :: u in l.users && u.email == email && t == Issue(f, u.id, now) &&
                         s.response.value.token == c.writeJwt(Claims(u.id, u.email, u.username, Some(f.jti)), now + AccessTokenLifetime))
         && !t.used && !t.invalidated && t.expiryDate == now + RefreshTokenLifetime
         && s.response.value.refreshToken == t.token == f.secret
         && s.response.value.expiration == now + AccessTokenLifetime
  {
    match FindByEmail(l.users, email)
    case None => Step(l, Fail(Unauthorized(WrongCredentialsMessage)))
    case Some(user) =>
      if c.verify(user.passwordHash, password) == Failed then
        Step(l, Fail(Unauthorized(WrongCredentialsMessage)))
      else
        var token := Issue(f, user.id, now);
        Step(Ledger(l.users, l.refreshTokens + [token]), Ok(Respond(c, user, Some(f.jti), now, token.token)))
  }

  /** `RefreshTokenAsync`: redeem the record with the given secret, mark it
      used and issue a replacement for the same user. */
  function RefreshStep(c: Collaborators, l: Ledger, secret: string, f: FreshToken, now: Tick): (s: Step)
    requires Consistent(l) && FreshFor(l, f)
    ensures Consistent(s.ledger) && s.ledger.users == l.users
    ensures s.response.Fail? <==>
      forall i :: 0 <= i < |l.refreshTokens| && l.refreshTokens[i].token == secret ==> !Redeemable(l.refreshTokens[i], now)
    ensures s.response.Fail? ==> s.response.error == Unauthorized(InvalidRefreshTokenMessage) && s.ledger == l
    ensures s.response.Ok? ==>
      exists k :: 0 <= k < |l.refreshTokens| && l.refreshTokens[k].token == secret && Redeemable(l.refreshTokens[k], now) &&
        var spent := l.refreshTokens[k];
        var t := Issue(f, spent.userId, now);
        && s.ledger.refreshTokens == l.refreshTokens[k := spent.(used := true)] + [t]
        && t.token != secret && !t.used && !t.invalidated
        && s.response.value.refreshToken == t.token
        && s.response.value.expiration == now + AccessTokenLifetime
        && (exists u :: u in l.users && u.id == spent.userId &&
              s.response.value.token == c.writeJwt(Claims(u.id, u.email, u.username, Some(t.jwtId)), now + AccessTokenLifetime))
  {
    match FindBySecret(l.refreshTokens, secret)
    case None => Step(l, Fail(Unauthorized(InvalidRefreshTokenMessage)))
    case Some(k) =>
      var spent := l.refreshTokens[k];
      if !Redeemable(spent, now) then
        Step(l, Fail(Unauthorized(InvalidRefreshTokenMessage)))
      else
        assert UserIdTaken(l.users, spent.userId);
        var user := FindById(l.users, spent.userId).value;
        var token := Issue(f, spent.userId, now);
        RedeemKeepsConsistent(l, k, token);
        Step(Ledger(l.users, l.refreshTokens[k := spent.(used := true)] + [token]),
             Ok(Respond(c, user, Some(f.jti), now, token.token)))
  }

  /** Marking a record used and appending a fresh record for a stored user
      keeps the tables consistent. */
  lemma RedeemKeepsConsistent(l: Ledger, k: nat, t: RefreshToken)
    requires Consistent(l) && k < |l.refreshTokens| && UserIdTaken(l.users, t.userId)
    requires FreshFor(l, FreshToken(t.id, t.token, t.jwtId))
    ensures Consistent(Ledger(l.users, l.refreshTokens[k := l.refreshTokens[k].(used := true)] + [t]))
  {
    var tokens := l.refreshTokens[k := l.refreshTokens[k].(used := true)] + [t];
    forall i | 0 <= i < |tokens|
      ensures UserIdTaken(l.users, tokens[i].userId)
      ensures i < |l.refreshTokens| ==> tokens[i].token == l.refreshTokens[i].token && tokens[i].id == l.refreshTokens[i].id
    {
      if i < |l.refreshTokens| {
        assert tokens[i].userId == l.refreshTokens[i].userId;
      }
    }
  }

  /** Redemption is single-use: once a secret has been redeemed, presenting it
      again fails, whatever the clock says. */
  lemma {:induction false} RefreshIsSingleUse(c: Collaborators, l: Ledger, secret: string,
                                              f1: FreshToken, now1: Tick, f2: FreshToken, now2: Tick)
    requires Consistent(l) && FreshFor(l, f1)
    requires RefreshStep(c, l, secret, f1, now1).response.Ok?
    requires FreshFor(RefreshStep(c, l, secret, f1, now1).ledger, f2)
    ensures RefreshStep(c, RefreshStep(c, l, secret, f1, now1).ledger, secret, f2, now2).response
            == Fail(Unauthorized(InvalidRefreshTokenMessage))
  {
    var l1 := RefreshStep(c, l, secret, f1, now1).ledger;
    var k :| 0 <= k < |l.refreshTokens| && l.refreshTokens[k].token == secret && Redeemable(l.refreshTokens[k], now1) &&
             l1.refreshTokens == l.refreshTokens[k := l.refreshTokens[k].(used := true)] + [Issue(f1, l.refreshTokens[k].userId, now1)];
    SpentIsNotRedeemable(l, k, Issue(f1, l.refreshTokens[k].userId, now1), now2);
  }

  /** After the record at `k` is marked used and a record with another secret
      is appended, no record carrying `k`'s secret is redeemable. */
  lemma SpentIsNotRedeemable(l: Ledger, k: nat, t: RefreshToken, now: Tick)
    requires Consistent(l) && k < |l.refreshTokens| && t.token != l.refreshTokens[k].token
    ensures var tokens := l.refreshTokens[k := l.refreshTokens[k].(used := true)] + [t];
            forall i :: 0 <= i < |tokens| && tokens[i].token == l.refreshTokens[k].token ==> !Redeemable(tokens[i], now)
  {
    var tokens := l.refreshTokens[k := l.refreshTokens[k].(used := true)] + [t];
    forall i | 0 <= i < |tokens| && tokens[i].token == l.refreshTokens[k].token
      ensures !Redeemable(tokens[i], now)
    {
      assert i == k;
    }
  }

  /** Every call leaves all earlier refresh-token records as they were, except
      the one a successful refresh redeems, which only becomes used. */
  lemma TokensOnlyGrowOrGetUsed(c: Collaborators, l: Ledger, secret: string, f: FreshToken, now: Tick, i: nat)
    requires Consistent(l) && FreshFor(l, f) && i < |l.refreshTokens|
    ensures var t := RefreshStep(c, l, secret, f, now).ledger.refreshTokens[i];
            t == l.refreshTokens[i] || (t == l.refreshTokens[i].(used := true) && l.refreshTokens[i].token == secret)
  {
  }

  /** A token presented at exactly its expiry instant is still redeemed. */
  lemma ExpiryInstantAccepted(c: Collaborators, l: Ledger, k: nat, f: FreshToken)
    requires Consistent(l) && FreshFor(l, f) && k < |l.refreshTokens|
    requires !l.refreshTokens[k].used && !l.refreshTokens[k].invalidated
    ensures RefreshStep(c, l, l.refreshTokens[k].token, f, l.refreshTokens[k].expiryDate).response.Ok?
  {
  }

  /** The refresh-token service object: the two tables are fields that the
      operations append to or update in place. */
  class AuthService {
    var users: seq<User>
    var refreshTokens: seq<RefreshToken>
    const collaborators: Collaborators

    function State(): Ledger reads this {
      Ledger(users, refreshTokens)
    }

    ghost predicate Valid() reads this {
      Consistent(State())
    }

    constructor (c: Collaborators)
      ensures Valid() && users == [] && refreshTokens == [] && collaborators == c
    {
      users, refreshTokens, collaborators := [], [], c;
    }

    method Register(username: string, email: string, password: string, userId: string, f: FreshToken, now: Tick)
      returns (r: Result<AuthResponse>)
      requires Valid() && FreshFor(State(), f) && !UserIdTaken(users, userId)
      modifies this
      ensures Valid()
      ensures var s := RegisterStep(collaborators, old(State()), username, email, password, userId, f, now);
              State() == s.ledger && r == s.response
    {
      ghost var s := RegisterStep(collaborators, State(), username, email, password, userId, f, now);
      if EmailTaken(users, email) {
        return Fail(BadRequest(DuplicateEmailMessage));
      }
      var user := User(userId, username, email, collaborators.hash(password));
      users := users + [user];
      var token := Issue(f, user.id, now);
      refreshTokens := refreshTokens + [token];
      r := Ok(Respond(collaborators, user, Some(f.jti), now, token.token));
    }

    method Login(email: string, password: string, f: FreshToken, now: Tick) returns (r: Result<AuthResponse>)
      requires Valid() && FreshFor(State(), f)
      modifies this
      ensures Valid()
      ensures var s := LoginStep(collaborators, old(State()), email, password, f, now);
              State() == s.ledger && r == s.response
    {
      var found := FindByEmail(users, email);
      if found.None? {
        return Fail(Unauthorized(WrongCredentialsMessage));
      }
      var user := found.value;
      if collaborators.verify(user.passwordHash, password) == Failed {
        return Fail(Unauthorized(WrongCredentialsMessage));
      }
      var token := Issue(f, user.id, now);
      refreshTokens := refreshTokens + [token];
      r := Ok(Respond(collaborators, user, Some(f.jti), now, token.token));
    }

    method Refresh(secret: string, f: FreshToken, now: Tick) returns (r: Result<AuthResponse>)
      requires Valid() && FreshFor(State(), f)
      modifies this
      ensures Valid()
      ensures var s := RefreshStep(collaborators, old(State()), secret, f, now);
              State() == s.ledger && r == s.response
    {
      var found := FindBySecret(refreshTokens, secret);
      if found.None? || !Redeemable(refreshTokens[found.value], now) {
        return Fail(Unauthorized(InvalidRefreshTokenMessage));
      }
      var k := found.value;
      refreshTokens := refreshTokens[k := refreshTokens[k].(used := true)];
      var owner := refreshTokens[k].userId;
      assert UserIdTaken(users, owner);
      var user := FindById(users, owner).value;
      var token := Issue(f, owner, now);
      refreshTokens := refreshTokens + [token];
      r := Ok(Respond(collaborators, user, Some(f.jti), now, token.token));
    }
  }
}
