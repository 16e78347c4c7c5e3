/** The authentication service of the earlier revision. A refresh-token record
    is identified by its id, which is also the secret handed to the client, and
    carries a single revocation flag; redeeming a record revokes it. */
module LegacyAuth {
  import opened Common
  import opened Identity

  datatype RefreshToken = RefreshToken(id: string, userId: string, expiresAt: Tick, isRevoked: bool)

  datatype Ledger = Ledger(users: seq<User>, refreshTokens: seq<RefreshToken>)

  datatype Step = Step(ledger: Ledger, response: Result<AuthResponse>)

  /** Users are unique by email and id, token ids are unique, and every token
      belongs to a stored user. */
  predicate Consistent(l: Ledger) {
    && UniqueUsers(l.users)
    && (forall i, j :: 0 <= i < j < |l.refreshTokens| ==> l.refreshTokens[i].id != l.refreshTokens[j].id)
    && (forall i :: 0 <= i < |l.refreshTokens| ==> UserIdTaken(l.users, l.refreshTokens[i].userId))
  }

  /** `tokenId` (drawn from `Guid.NewGuid()`) is new to the token table. */
  predicate FreshFor(l: Ledger, tokenId: string) {
    forall i :: 0 <= i < |l.refreshTokens| ==> l.refreshTokens[i].id != tokenId
  }

  /** Accepted at `now`: not revoked and not expired (strict `<`). */
  predicate Redeemable(t: RefreshToken, now: Tick) {
    !t.isRevoked && !(t.expiresAt < now)
  }

  /** The record written for a new sign-in or refresh: the fresh id, owned by
      `userId`, accepted exactly up to and including seven days after `now`. */
  function Issue(tokenId: string, userId: string, now: Tick): (t: RefreshToken)
    ensures t.id == tokenId && t.userId == userId
    ensures forall at :: Redeemable(t, at) <==> at <= now + RefreshTokenLifetime
  {
    RefreshToken(tokenId, userId, now + RefreshTokenLifetime, false)
  }

  /** The record with the given id (`SingleOrDefault` on the key). */
  function FindToken(tokens: seq<RefreshToken>, id: string): (r: Option<nat>)
    ensures r.Some? ==> r.value < |tokens| && tokens[r.value].id == id
    ensures r.None? <==> forall i :: 0 <= i < |tokens| ==> tokens[i].id != id
  {
    FirstWhere(tokens, (t: RefreshToken) => t.id == id)
  }

  /** `RegisterAsync`. */
  function RegisterStep(c: Collaborators, l: Ledger, username: string, email: string, password: string,
                        userId: string, tokenId: string, now: Tick): (s: Step)
    requires Consistent(l) && FreshFor(l, tokenId) && !UserIdTaken(l.users, userId)
    ensures Consistent(s.ledger)
    ensures s.response.Fail? <==> EmailTaken(l.users, email)
    ensures s.response.Fail? ==> s.response.error == BadRequest(DuplicateEmailMessage) && s.ledger == l
    ensures s.response.Ok? ==>
      && |s.ledger.users| == |l.users| + 1 && s.ledger.users[..|l.users|] == l.users
      && |s.ledger.refreshTokens| == |l.refreshTokens| + 1 && s.ledger.refreshTokens[..|l.refreshTokens|] == l.refreshTokens
      && var u := s.ledger.users[|l.users|];
         var t := s.ledger.refreshTokens[|l.refreshTokens|];
         && u == User(userId, username, email, c.hash(password))
         && t == Issue(tokenId, u.id, now) && !t.isRevoked && t.expiresAt == now + RefreshTokenLifetime
         && s.response.value.refreshToken == t.id == tokenId
         && s.response.value.expiration == now + AccessTokenLifetime
         && s.response.value.token == c.writeJwt(Claims(u.id, email, username, None), now + AccessTokenLifetime)
  {
    if EmailTaken(l.users, email) then
      Step(l, Fail(BadRequest(DuplicateEmailMessage)))
    else
      var user := User(userId, username, email, c.hash(password));
      var users := l.users + [user];
      assert UserIdTaken(users, userId) by { assert users[|l.users|].id == userId; }
      assert forall i :: 0 <= i < |l.refreshTokens| ==> UserIdTaken(users, l.refreshTokens[i].userId) by {
        forall i | 0 <= i < |l.refreshTokens| ensures UserIdTaken(users, l.refreshTokens[i].userId) {
          var k :| 0 <= k < |l.users| && l.users[k].id == l.refreshTokens[i].userId;
          assert users[k] == l.users[k];
        }
      }
      Step(Ledger(users, l.refreshTokens + [Issue(tokenId, userId, now)]),
           Ok(Respond(c, user, None, now, tokenId)))
  }

  /** `LoginAsync`. */
  function LoginStep(c: Collaborators, l: Ledger, email: string, password: string, tokenId: string, now: Tick): (s: Step)
    requires Consistent(l) && FreshFor(l, tokenId)
    ensures Consistent(s.ledger) && s.ledger.users == l.users
    ensures s.response.Fail? <==>
      forall i :: 0 <= i < |l.users| && l.users[i].email == email ==> c.verify(l.users[i].passwordHash, password) == Failed
    ensures s.response.Fail? ==> s.response.error == Unauthorized(WrongCredentialsMessage) && s.ledger == l
    ensures s.response.Ok? ==>
      && |s.ledger.refreshTokens| == |l.refreshTokens| + 1 && s.ledger.refreshTokens[..|l.refreshTokens|] == l.refreshTokens
      && var t := s.ledger.refreshTokens[|l.refreshTokens|];
         && (exists u :: u in l.users && u.email == email && t == Issue(tokenId, u.id, now) &&
                         s.response.value.token == c.writeJwt(Claims(u.id, u.email, u.username, None), now + AccessTokenLifetime))
         && !t.isRevoked && t.expiresAt == now + RefreshTokenLifetime
         && s.response.value.refreshToken == t.id == tokenId
         && s.response.value.expiration == now + AccessTokenLifetime
  {
    match FindByEmail(l.users, email)
    case None => Step(l, Fail(Unauthorized(WrongCredentialsMessage)))
    case Some(user) =>
      if c.verify(user.passwordHash, password) == Failed then
        Step(l, Fail(Unauthorized(WrongCredentialsMessage)))
      else
        Step(Ledger(l.users, l.refreshTokens + [Issue(tokenId, user.id, now)]),
             Ok(Respond(c, user, None, now, tokenId)))
  }

  /** `RefreshTokenAsync`: revoke the presented record and issue a new one for
      the same user. */
  function RefreshStep(c: Collaborators, l: Ledger, presented: string, tokenId: string, now: Tick): (s: Step)
    requires Consistent(l) && FreshFor(l, tokenId)
    ensures Consistent(s.ledger) && s.ledger.users == l.users
    ensures s.response.Fail? <==>
      forall i :: 0 <= i < |l.refreshTokens| && l.refreshTokens[i].id == presented ==> !Redeemable(l.refreshTokens[i], now)
    ensures s.response.Fail? ==> s.response.error == Unauthorized(InvalidRefreshTokenMessage) && s.ledger == l
    ensures s.response.Ok? ==>
      exists k :: 0 <= k < |l.refreshTokens| && l.refreshTokens[k].id == presented && Redeemable(l.refreshTokens[k], now) &&
        var spent := l.refreshTokens[k];
        var t := Issue(tokenId, spent.userId, now);
        && s.ledger.refreshTokens == l.refreshTokens[k := spent.(isRevoked := true)] + [t]
        && t.id != presented && !t.isRevoked
        && s.response.value.refreshToken == t.id
        && s.response.value.expiration == now + AccessTokenLifetime
        && (exists u :: u in l.users && u.id == spent.userId &&
              s.response.value.token == c.writeJwt(Claims(u.id, u.email, u.username, None), now + AccessTokenLifetime))
  {
    match FindToken(l.refreshTokens, presented)
    case None => Step(l, Fail(Unauthorized(InvalidRefreshTokenMessage)))
    case Some(k) =>
      var spent := l.refreshTokens[k];
      if !Redeemable(spent, now) then
        Step(l, Fail(Unauthorized(InvalidRefreshTokenMessage)))
      else
        assert UserIdTaken(l.users, spent.userId);
        var user := FindById(l.users, spent.userId).value;
        var token := Issue(tokenId, spent.userId, now);
        RevokeKeepsConsistent(l, k, token);
        Step(Ledger(l.users, l.refreshTokens[k := spent.(isRevoked := true)] + [token]),
             Ok(Respond(c, user, None, now, tokenId)))
  }

  /** Revoking a record and appending a new record for a stored user keeps the
      tables consistent. */
  lemma RevokeKeepsConsistent(l: Ledger, k: nat, t: RefreshToken)
    requires Consistent(l) && k < |l.refreshTokens| && UserIdTaken(l.users, t.userId) && FreshFor(l, t.id)
    ensures Consistent(Ledger(l.users, l.refreshTokens[k := l.refreshTokens[k].(isRevoked := true)] + [t]))
  {
    var tokens := l.refreshTokens[k := l.refreshTokens[k].(isRevoked := true)] + [t];
    forall i | 0 <= i < |tokens|
      ensures UserIdTaken(l.users, tokens[i].userId)
      ensures i < |l.refreshTokens| ==> tokens[i].id == l.refreshTokens[i].id
    {
      if i < |l.refreshTokens| {
        assert tokens[i].userId == l.refreshTokens[i].userId;
      }
    }
  }

  /** A revoked record is never redeemed again: redemption is single-use. */
  lemma {:induction false} RefreshIsSingleUse(c: Collaborators, l: Ledger, presented: string,
                                              id1: string, now1: Tick, id2: string, now2: Tick)
    requires Consistent(l) && FreshFor(l, id1)
    requires RefreshStep(c, l, presented, id1, now1).response.Ok?
    requires FreshFor(RefreshStep(c, l, presented, id1, now1).ledger, id2)
    ensures RefreshStep(c, RefreshStep(c, l, presented, id1, now1).ledger, presented, id2, now2).response
            == Fail(Unauthorized(InvalidRefreshTokenMessage))
  {
    var l1 := RefreshStep(c, l, presented, id1, now1).ledger;
    var k :| 0 <= k < |l.refreshTokens| && l.refreshTokens[k].id == presented && Redeemable(l.refreshTokens[k], now1) &&
             l1.refreshTokens == l.refreshTokens[k := l.refreshTokens[k].(isRevoked := true)] + [Issue(id1, l.refreshTokens[k].userId, now1)];
    RevokedIsNotRedeemable(l, k, Issue(id1, l.refreshTokens[k].userId, now1), now2);
  }

  /** After the record at `k` is revoked and a record with another id is
      appended, no record carrying `k`'s id is redeemable. */
  lemma RevokedIsNotRedeemable(l: Ledger, k: nat, t: RefreshToken, now: Tick)
    requires Consistent(l) && k < |l.refreshTokens| && t.id != l.refreshTokens[k].id
    ensures var tokens := l.refreshTokens[k := l.refreshTokens[k].(isRevoked := true)] + [t];
            forall i :: 0 <= i < |tokens| && tokens[i].id == l.refreshTokens[k].id ==> !Redeemable(tokens[i], now)
  {
    var tokens := l.refreshTokens[k := l.refreshTokens[k].(isRevoked := true)] + [t];
    forall i | 0 <= i < |tokens| && tokens[i].id == l.refreshTokens[k].id
      ensures !Redeemable(tokens[i], now)
    {
      assert i == k;
    }
  }

  /** A record presented at exactly its expiry instant is still redeemed, and a
      revoked one never is. */
  lemma ExpiryInstantAccepted(c: Collaborators, l: Ledger, k: nat, tokenId: string, now: Tick)
    requires Consistent(l) && FreshFor(l, tokenId) && k < |l.refreshTokens|
    ensures !l.refreshTokens[k].isRevoked ==>
              RefreshStep(c, l, l.refreshTokens[k].id, tokenId, l.refreshTokens[k].expiresAt).response.Ok?
    ensures l.refreshTokens[k].isRevoked ==>
              RefreshStep(c, l, l.refreshTokens[k].id, tokenId, now).response.Fail?
  {
    forall i | 0 <= i < |l.refreshTokens| && l.refreshTokens[i].id == l.refreshTokens[k].id
      ensures i == k
    {
    }
  }

  /** The earlier service object, over the same two tables. */
  class AuthService {
    var users: seq<User>
    var refreshTokens: seq<RefreshToken>
    const collaborators: Collaborators

    function State(): Ledger reads this {
      Ledger(users, refreshTokens)
    }

    ghost predicate Valid() reads this {
      Consistent(State())
    }

    constructor (c: Collaborators)
      ensures Valid() && users == [] && refreshTokens == [] && collaborators == c
    {
      users, refreshTokens, collaborators := [], [], c;
    }

    method Register(username: string, email: string, password: string, userId: string, tokenId: string, now: Tick)
      returns (r: Result<AuthResponse>)
      requires Valid() && FreshFor(State(), tokenId) && !UserIdTaken(users, userId)
      modifies this
      ensures Valid()
      ensures var s := RegisterStep(collaborators, old(State()), username, email, password, userId, tokenId, now);
              State() == s.ledger && r == s.response
    {
      ghost var s := RegisterStep(collaborators, State(), username, email, password, userId, tokenId, now);
      if EmailTaken(users, email) {
        return Fail(BadRequest(DuplicateEmailMessage));
      }
      var user := User(userId, username, email, collaborators.hash(password));
      users := users + [user];
      refreshTokens := refreshTokens + [Issue(tokenId, user.id, now)];
      r := Ok(Respond(collaborators, user, None, now, tokenId));
    }

    method Login(email: string, password: string, tokenId: string, now: Tick) returns (r: Result<AuthResponse>)
      requires Valid() && FreshFor(State(), tokenId)
      modifies this
      ensures Valid()
      ensures var s := LoginStep(collaborators, old(State()), email, password, tokenId, now);
              State() == s.ledger && r == s.response
    {
      var found := FindByEmail(users, email);
      if found.None? {
        return Fail(Unauthorized(WrongCredentialsMessage));
      }
      var user := found.value;
      if collaborators.verify(user.passwordHash, password) == Failed {
        return Fail(Unauthorized(WrongCredentialsMessage));
      }
      refreshTokens := refreshTokens + [Issue(tokenId, user.id, now)];
      r := Ok(Respond(collaborators, user, None, now, tokenId));
    }

    method Refresh(presented: string, tokenId: string, now: Tick) returns (r: Result<AuthResponse>)
      requires Valid() && FreshFor(State(), tokenId)
      modifies this
      ensures Valid()
      ensures var s := RefreshStep(collaborators, old(State()), presented, tokenId, now);
              State() == s.ledger && r == s.response
    {
      var found := FindToken(refreshTokens, presented);
      if found.None? || !Redeemable(refreshTokens[found.value], now) {
        return Fail(Unauthorized(InvalidRefreshTokenMessage));
      }
      var k := found.value;
      refreshTokens := refreshTokens[k := refreshTokens[k].(isRevoked := true)];
      var owner := refreshTokens[k].userId;
      assert UserIdTaken(users, owner);
      var user := FindById(users, owner).value;
      refreshTokens := refreshTokens + [Issue(tokenId, owner, now)];
      r := Ok(Respond(collaborators, user, None, now, tokenId));
    }
  }
}
