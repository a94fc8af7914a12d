/**
  * EmailVerificationService: issuing a token for a user, verifying an email
  * with a token, resending under a global hourly limit, the hourly cleanup of
  * expired tokens, and the verified-email lookup. The random token string and
  * the clock are parameters; sending the emails is not modelled.
  */
module EmailVerification {
  import opened Common
  import opened Rows
  import opened Users
  import opened VerificationTokens
  import opened TokenStore

  /** At most this many tokens may have been created in the last hour for a resend to go ahead. */
  const MaxRecentTokens: int := 3

  datatype ResendError =
      /** UserNotFoundException */
    | UserNotFound
      /** IllegalStateException("Email già verificata") */
    | AlreadyVerified
      /** IllegalStateException("Troppi tentativi di reinvio ...") */
    | TooManyAttempts

  /** The row createAndSendVerificationToken stores, under the id the database hands out. */
  function IssuedRow(id: int, token: string, userId: int, now: Instant): (row: TokenRow)
    ensures row.token == token && row.userId == userId && row.createdAt == now
    ensures row.expiresAt == PlusHours(now, TokenLifetimeHours) && RowValid(row, row.expiresAt)
    ensures !RowValid(row, row.expiresAt + 1)
  {
    TokenRow(id, token, userId, now, PlusHours(now, TokenLifetimeHours), None, false)
  }

  /** isEmailVerified: the flag of the user with that email; an unknown email is not verified. */
  function IsEmailVerified(users: seq<User>, email: string): (verified: bool)
    ensures (forall k :: 0 <= k < |users| ==> users[k].email != email) ==> !verified
  {
    match FindByEmail(users, email)
    case Some(u) => u.emailVerified
    case None => false
  }

  /** With unique emails, isEmailVerified reads the stored user's own flag. */
  lemma IsEmailVerifiedOfStored(users: seq<User>, k: nat)
    requires UniqueEmails(users) && k < |users|
    ensures IsEmailVerified(users, users[k].email) == users[k].emailVerified
  {
    FindByEmailUnique(users, k);
  }

  /** The tokens of another user do not see a deleteByUser. */
  lemma {:induction false} OtherUsersKeepTokens(rows: seq<TokenRow>, u: int, v: int)
    requires u != v
    ensures TokensOf(WithoutUser(rows, u), v) == TokensOf(rows, v)
  {
    if rows != [] {
      OtherUsersKeepTokens(rows[1..], u, v);
      assert rows == [rows[0]] + rows[1..];
      if rows[0].userId != u {
        var rest := WithoutUser(rows[1..], u);
        assert WithoutUser(rows, u) == [rows[0]] + rest;
        assert ([rows[0]] + rest)[1..] == rest;
      }
    }
  }

  /** After a deleteByUser the user has no token left. */
  lemma {:induction false} NoTokensAfterDelete(rows: seq<TokenRow>, u: int)
    ensures TokensOf(WithoutUser(rows, u), u) == []
  {
    var rest := WithoutUser(rows, u);
    assert forall k :: 0 <= k < |rest| ==> rest[k] in rest;
    FilterDropsAll(rest, (x: TokenRow) => x.userId == u);
  }

  /**
    * createAndSendVerificationToken leaves the user exactly one token, the new
    * one, and every other user's tokens as they were.
    */
  lemma IssueLeavesOneToken(rows: seq<TokenRow>, t: TokenRow, v: int)
    ensures TokensOf(WithoutUser(rows, t.userId) + [t], t.userId) == [t]
    ensures v != t.userId ==> TokensOf(WithoutUser(rows, t.userId) + [t], v) == TokensOf(rows, v)
  {
    var u := t.userId;
    FilterConcat(WithoutUser(rows, u), [t], (x: TokenRow) => x.userId == u);
    FilterConcat(WithoutUser(rows, u), [t], (x: TokenRow) => x.userId == v);
    NoTokensAfterDelete(rows, u);
    assert [t][1..] == [];
    if v != u {
      OtherUsersKeepTokens(rows, u, v);
    }
  }

  /** Every stored token belongs to a stored user (the foreign key on user_id). */
  ghost predicate TokensLinked(rows: seq<TokenRow>, users: seq<User>) {
    forall x :: x in rows ==> FindById(users, x.userId).Some?
  }

  /** The foreign key survives any change to the users that keeps every id in place. */
  lemma LinkedAfterUserUpdate(rows: seq<TokenRow>, before: seq<User>, after: seq<User>)
    requires TokensLinked(rows, before)
    requires |after| == |before| && forall k :: 0 <= k < |before| ==> after[k].id == before[k].id
    ensures TokensLinked(rows, after)
  {
  }

  /** Overwriting a token with a row of a stored user keeps every token linked. */
  lemma LinkedAfterTokenUpdate(rows: seq<TokenRow>, row: TokenRow, users: seq<User>)
    requires TokensLinked(rows, users) && FindById(users, row.userId).Some?
    ensures TokensLinked(ReplaceToken(rows, row), users)
  {
    var r := ReplaceToken(rows, row);
    forall x | x in r ensures FindById(users, x.userId).Some? {
      var k :| 0 <= k < |r| && r[k] == x;
      assert rows[k] in rows;
    }
  }

  class EmailVerificationService {
    const tokens: TokenRepository
    const users: UserRepository

    ghost predicate Valid()
      reads this, tokens, users
    {
      tokens.Valid() && users.Valid() && TokensLinked(tokens.rows, users.users)
    }

    constructor (tokens: TokenRepository, users: UserRepository)
      requires tokens.Valid() && users.Valid() && TokensLinked(tokens.rows, users.users)
      ensures this.tokens == tokens && this.users == users && Valid()
    {
      this.tokens := tokens;
      this.users := users;
    }

    /**
      * createAndSendVerificationToken(user): the user's old tokens are deleted
      * and a new one, valid for 24 hours from `now`, is stored. `token` is the
      * freshly generated random string, which no stored token holds.
      */
    method CreateAndSendVerificationToken(user: User, token: string, now: Instant)
      requires Valid() && FindById(users.users, user.id).Some?
      requires !ExistsByToken(tokens.rows, token)
      modifies tokens
      ensures Valid() && tokens.nextId == old(tokens.nextId) + 1
      ensures tokens.rows == WithoutUser(old(tokens.rows), user.id) + [IssuedRow(old(tokens.nextId), token, user.id, now)]
    {
      tokens.DeleteByUser(user.id);
      var entity := new EmailVerificationToken.Build(token, user.id, Some(now), Some(PlusHours(now, TokenLifetimeHours)), now);
      tokens.Insert(entity, now);
    }

    /**
      * verifyEmail(token): an unknown token, or one that is used, expired or
      * already verified, gives false and changes nothing. Otherwise the token
      * is marked used, its user's email is marked verified, and the answer is true.
      */
    method VerifyEmail(token: string, now: Instant) returns (verified: bool)
      requires Valid()
      modifies tokens, users
      ensures Valid()
      ensures verified <==> FindByToken(old(tokens.rows), token).Some? && RowValid(FindByToken(old(tokens.rows), token).value, now)
      ensures !verified ==> unchanged(tokens, users)
      ensures verified ==>
                var found := FindByToken(old(tokens.rows), token).value;
                var owner := FindById(old(users.users), found.userId).value;
                && tokens.rows == ReplaceToken(old(tokens.rows), MarkedRow(found, now))
                && users.users == ReplaceWhere(old(users.users), (x: User) => x.id == owner.id, owner.(emailVerified := true))
                && FindByToken(tokens.rows, token) == Some(MarkedRow(found, now))
                && FindById(users.users, found.userId).Some? && FindById(users.users, found.userId).value.emailVerified
    {
      var found := FindByToken(tokens.rows, token);
      if found.None? {
        return false;
      }
      var entity := new EmailVerificationToken.Load(found.value);
      if !entity.IsValid(now) {
        return false;
      }
      UseToken(found.value, now);
      verified := true;
    }

    /** The second half of verifyEmail, for a stored token that is still valid. */
    method UseToken(row: TokenRow, now: Instant)
      requires Valid() && row in tokens.rows && RowValid(row, now)
      modifies tokens, users
      ensures Valid()
      ensures var owner := FindById(old(users.users), row.userId).value;
              && tokens.rows == ReplaceToken(old(tokens.rows), MarkedRow(row, now))
              && users.users == ReplaceWhere(old(users.users), (x: User) => x.id == owner.id, owner.(emailVerified := true))
              && FindById(users.users, row.userId).Some? && FindById(users.users, row.userId).value.emailVerified
      ensures FindByToken(old(tokens.rows), row.token) == Some(row) ==> FindByToken(tokens.rows, row.token) == Some(MarkedRow(row, now))
    {
      MarkTokenUsed(row, now);
      var owner := FindById(users.users, row.userId).value;
      MarkOwnerVerified(owner);
    }

    /** markAsUsed and save: the token's row is overwritten with its used form. */
    method MarkTokenUsed(row: TokenRow, now: Instant)
      requires Valid() && row in tokens.rows
      modifies tokens
      ensures Valid()
      ensures tokens.rows == ReplaceToken(old(tokens.rows), MarkedRow(row, now))
      ensures FindByToken(old(tokens.rows), row.token) == Some(row) ==> FindByToken(tokens.rows, row.token) == Some(MarkedRow(row, now))
    {
      var entity := new EmailVerificationToken.Load(row);
      entity.MarkAsUsed(now);
      var marked := entity.Row();
      assert marked == MarkedRow(row, now);
      SameIdSameRow(tokens.rows, row);
      if FindByToken(tokens.rows, row.token) == Some(row) {
        FindAfterReplace(tokens.rows, row, marked);
      }
      LinkedAfterTokenUpdate(tokens.rows, marked, users.users);
      tokens.Update(marked);
    }

    /** user.verifyEmail() and save: the owner's flag is set and every other column stays. */
    method MarkOwnerVerified(owner: User)
      requires tokens.Valid() && users.Valid() && owner in users.users
      requires TokensLinked(tokens.rows, users.users)
      modifies users
      ensures Valid()
      ensures users.users == ReplaceWhere(old(users.users), (x: User) => x.id == owner.id, owner.(emailVerified := true))
      ensures FindById(users.users, owner.id) == Some(owner.(emailVerified := true))
    {
      var k :| 0 <= k < |users.users| && users.users[k] == owner;
      FindByIdUnique(users.users, k);
      ghost var before := users.users;
      users.Update(owner.(emailVerified := true));
      LinkedAfterUserUpdate(tokens.rows, before, users.users);
      FindByIdUnique(users.users, k);
    }

    /**
      * resendVerificationEmail(email): refused for an unknown email, for an
      * already-verified user, and when 3 or more tokens of anyone were created
      * in the last hour; otherwise a new token is issued as above.
      */
    method ResendVerificationEmail(email: string, token: string, now: Instant) returns (result: Result<(), ResendError>)
      requires Valid() && !ExistsByToken(tokens.rows, token)
      modifies tokens
      ensures Valid()
      ensures result == Err(ResendError.UserNotFound) <==> FindByEmail(users.users, email).None?
      ensures result == Err(AlreadyVerified) <==> FindByEmail(users.users, email).Some? && FindByEmail(users.users, email).value.emailVerified
      ensures result == Err(TooManyAttempts) <==>
                && FindByEmail(users.users, email).Some? && !FindByEmail(users.users, email).value.emailVerified
                && CountCreatedSince(old(tokens.rows), PlusHours(now, -1)) >= MaxRecentTokens
      ensures result.Err? ==> unchanged(tokens)
      ensures result.Ok? ==>
                var userId := FindByEmail(users.users, email).value.id;
                tokens.rows == WithoutUser(old(tokens.rows), userId) + [IssuedRow(old(tokens.nextId), token, userId, now)]
    {
      var found := FindByEmail(users.users, email);
      if found.None? {
        return Err(ResendError.UserNotFound);
      }
      var user := found.value;
      if user.emailVerified {
        return Err(AlreadyVerified);
      }
      var recent := CountCreatedSince(tokens.rows, PlusHours(now, -1));
      if recent >= MaxRecentTokens {
        return Err(TooManyAttempts);
      }
      var k :| 0 <= k < |users.users| && users.users[k] == user;
      FindByIdUnique(users.users, k);
      CreateAndSendVerificationToken(user, token, now);
      result := Ok(());
    }

    /** cleanupExpiredTokens: the tokens whose expiresAt is before `now` are deleted. */
    method CleanupExpiredTokens(now: Instant)
      requires Valid()
      modifies tokens
      ensures Valid()
      ensures tokens.rows == WithoutExpired(old(tokens.rows), now)
    {
      tokens.DeleteExpiredTokens(now);
    }
  }

  /**
    * A token verifies at most once: a second verifyEmail with the same token,
    * at the same moment or later, answers false whatever the first answered.
    */
  method VerifyTwice(service: EmailVerificationService, token: string, first: Instant, second: Instant)
      returns (once: bool, twice: bool)
    requires service.Valid() && first <= second
    modifies service.tokens, service.users
    ensures service.Valid()
    ensures once <==> FindByToken(old(service.tokens.rows), token).Some? && RowValid(FindByToken(old(service.tokens.rows), token).value, first)
    ensures !twice
  {
    once := service.VerifyEmail(token, first);
    ghost var found := FindByToken(service.tokens.rows, token);
    if found.Some? && !once {
      if RowValid(found.value, second) {
        ValidityIsMonotone(found.value, first, second);
      }
    }
    twice := service.VerifyEmail(token, second);
  }
}
