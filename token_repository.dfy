/**
  * EmailVerificationTokenRepository: the queries over the tokens table as
  * functions of its rows, and the repository as a class whose save and bulk
  * deletes change them.
  */
module TokenStore {
  import opened Common
  import opened Rows
  import opened VerificationTokens

  /** findByToken */
  function FindByToken(rows: seq<TokenRow>, token: string): (r: Option<TokenRow>)
    ensures r.Some? ==> r.value in rows && r.value.token == token
    ensures r.None? ==> forall k :: 0 <= k < |rows| ==> rows[k].token != token
  {
    FindFirst(rows, (t: TokenRow) => t.token == token)
  }

  /** existsByToken */
  predicate ExistsByToken(rows: seq<TokenRow>, token: string) {
    exists k :: 0 <= k < |rows| && rows[k].token == token
  }

  /** existsByToken(t) holds exactly when findByToken(t) finds a row. */
  lemma ExistsByTokenIffFound(rows: seq<TokenRow>, token: string)
    ensures ExistsByToken(rows, token) <==> FindByToken(rows, token).Some?
  {
    var found := FindByToken(rows, token);
    if found.Some? {
      var k :| 0 <= k < |rows| && rows[k] == found.value;
    }
  }

  /** The unique constraint on the token column. */
  ghost predicate UniqueTokens(rows: seq<TokenRow>) {
    forall i, j :: 0 <= i < j < |rows| ==> rows[i].token != rows[j].token
  }

  ghost predicate UniqueIds(rows: seq<TokenRow>) {
    forall i, j :: 0 <= i < j < |rows| ==> rows[i].id != rows[j].id
  }

  /** With unique token strings, findByToken returns the one row holding the string. */
  lemma FindByTokenUnique(rows: seq<TokenRow>, k: nat)
    requires UniqueTokens(rows) && k < |rows|
    ensures FindByToken(rows, rows[k].token) == Some(rows[k])
  {
    FindFirstOnly(rows, (t: TokenRow) => t.token == rows[k].token, k);
  }

  /** deleteExpiredTokens(now): the rows that survive, those with expiresAt not before `now`. */
  function WithoutExpired(rows: seq<TokenRow>, now: Instant): (r: seq<TokenRow>)
    ensures forall x :: x in r <==> x in rows && x.expiresAt >= now
  {
    Filter(rows, (t: TokenRow) => !(t.expiresAt < now))
  }

  /** deleteByUser(user): the rows of every other user. */
  function WithoutUser(rows: seq<TokenRow>, userId: int): (r: seq<TokenRow>)
    ensures forall x :: x in r <==> x in rows && x.userId != userId
  {
    Filter(rows, (t: TokenRow) => t.userId != userId)
  }

  /** The tokens of one user (findByUser, when there is at most one). */
  function TokensOf(rows: seq<TokenRow>, userId: int): (r: seq<TokenRow>)
    ensures forall x :: x in r <==> x in rows && x.userId == userId
  {
    Filter(rows, (t: TokenRow) => t.userId == userId)
  }

  /** countTokensCreatedSince(since): tokens created strictly after `since`, of any user. */
  function CountCreatedSince(rows: seq<TokenRow>, since: Instant): (n: nat)
    ensures n <= |rows|
  {
    CountWhere(rows, (t: TokenRow) => t.createdAt > since)
  }

  /** Counting a table that starts with `t`. */
  lemma CountCons(t: TokenRow, rest: seq<TokenRow>, since: Instant)
    ensures CountCreatedSince([t] + rest, since) == (if t.createdAt > since then 1 else 0) + CountCreatedSince(rest, since)
  {
    assert ([t] + rest)[0] == t && ([t] + rest)[1..] == rest;
  }

  /** A token of any user counts: the total is the user's count plus everybody else's. */
  lemma {:induction false} CountSpansUsers(rows: seq<TokenRow>, since: Instant, userId: int)
    ensures CountCreatedSince(rows, since)
            == CountCreatedSince(TokensOf(rows, userId), since) + CountCreatedSince(WithoutUser(rows, userId), since)
  {
    if rows != [] {
      var t := rows[0];
      CountSpansUsers(rows[1..], since, userId);
      if t.userId == userId {
        assert TokensOf(rows, userId) == [t] + TokensOf(rows[1..], userId);
        CountCons(t, TokensOf(rows[1..], userId), since);
      } else {
        assert WithoutUser(rows, userId) == [t] + WithoutUser(rows[1..], userId);
        CountCons(t, WithoutUser(rows[1..], userId), since);
      }
    }
  }

  /** A saved token raises the count by one exactly when it was created after `since`. */
  lemma {:induction false} CountAfterSave(rows: seq<TokenRow>, t: TokenRow, since: Instant)
    ensures CountCreatedSince(rows + [t], since) == CountCreatedSince(rows, since) + (if t.createdAt > since then 1 else 0)
  {
    if rows == [] {
      assert rows + [t] == [t];
      assert [t][1..] == [];
    } else {
      assert (rows + [t])[1..] == rows[1..] + [t];
      CountAfterSave(rows[1..], t, since);
    }
  }

  /** Removing rows keeps the ids and the token strings unique. */
  lemma {:induction false} FilterKeepsUnique(rows: seq<TokenRow>, keep: TokenRow -> bool)
    requires UniqueIds(rows) && UniqueTokens(rows)
    ensures UniqueIds(Filter(rows, keep)) && UniqueTokens(Filter(rows, keep))
  {
    if rows != [] {
      var rest := rows[1..];
      assert UniqueIds(rest) && UniqueTokens(rest) by {
        forall i, j | 0 <= i < j < |rest| ensures rest[i].id != rest[j].id && rest[i].token != rest[j].token {
          assert rest[i] == rows[i + 1] && rest[j] == rows[j + 1];
        }
      }
      FilterKeepsUnique(rest, keep);
      if keep(rows[0]) {
        var tail := Filter(rest, keep);
        var r := [rows[0]] + tail;
        forall i, j | 0 <= i < j < |r| ensures r[i].id != r[j].id && r[i].token != r[j].token {
          assert r[j] == tail[j - 1] && r[j] in rest;
          if i > 0 {
            assert r[i] == tail[i - 1];
          } else {
            var k :| 0 <= k < |rest| && rest[k] == r[j];
            assert rows[k + 1] == r[j];
          }
        }
      }
    }
  }

  /** The row stored in place of the row with the same id (save of a loaded token). */
  function ReplaceToken(rows: seq<TokenRow>, row: TokenRow): (r: seq<TokenRow>)
    ensures |r| == |rows|
    ensures forall k :: 0 <= k < |rows| ==> r[k] == if rows[k].id == row.id then row else rows[k]
  {
    ReplaceWhere(rows, (t: TokenRow) => t.id == row.id, row)
  }

  /** With unique ids, a stored row is the only row under its id. */
  lemma SameIdSameRow(rows: seq<TokenRow>, row: TokenRow)
    requires UniqueIds(rows) && row in rows
    ensures forall x :: x in rows && x.id == row.id ==> x == row
  {
    var j :| 0 <= j < |rows| && rows[j] == row;
    forall x | x in rows && x.id == row.id ensures x == row {
      var i :| 0 <= i < |rows| && rows[i] == x;
      assert i == j;
    }
  }

  /** After saving a row over its own id, findByToken on its string finds the saved row. */
  lemma {:induction false} FindAfterReplace(rows: seq<TokenRow>, old_row: TokenRow, row: TokenRow)
    requires FindByToken(rows, row.token) == Some(old_row) && old_row.id == row.id
    requires forall x :: x in rows && x.id == row.id ==> x == old_row
    ensures FindByToken(ReplaceToken(rows, row), row.token) == Some(row)
  {
    var r := ReplaceToken(rows, row);
    assert r[0] == if rows[0].id == row.id then row else rows[0];
    if rows[0].token != row.token {
      assert rows == [rows[0]] + rows[1..];
      assert rows[0].id != row.id;
      assert r[1..] == ReplaceToken(rows[1..], row);
      FindAfterReplace(rows[1..], old_row, row);
    }
  }

  /** The tokens table; ids come from an IDENTITY column. */
  class TokenRepository {
    var rows: seq<TokenRow>
    var nextId: int

    ghost predicate Valid()
      reads this
    {
      UniqueIds(rows) && UniqueTokens(rows) && forall k :: 0 <= k < |rows| ==> rows[k].id < nextId
    }

    constructor ()
      ensures Valid() && rows == []
    {
      rows := [];
      nextId := 1;
    }

    /** save of a new token: onCreate fills the defaults and the row is stored under the next id. */
    method Insert(t: EmailVerificationToken, now: Instant)
      requires Valid() && t.id.None? && !ExistsByToken(rows, t.token)
      modifies this, t
      ensures Valid() && t.Stored() && t.id == Some(old(nextId)) && nextId == old(nextId) + 1
      ensures rows == old(rows) + [t.Row()]
      ensures t.createdAt == Some(old(t.createdAt).GetOr(now))
      ensures t.expiresAt == Some(old(t.expiresAt).GetOr(PlusHours(t.createdAt.value, TokenLifetimeHours)))
      ensures t.token == old(t.token) && t.userId == old(t.userId)
      ensures t.verifiedAt == old(t.verifiedAt) && t.used == old(t.used)
    {
      t.OnCreate(now);
      t.id := Some(nextId);
      rows := rows + [t.Row()];
      nextId := nextId + 1;
    }

    /** save of a loaded token: its row is overwritten; the token string does not change. */
    method Update(row: TokenRow)
      requires Valid()
      requires forall k :: 0 <= k < |rows| && rows[k].id == row.id ==> rows[k].token == row.token
      modifies this
      ensures Valid() && nextId == old(nextId)
      ensures rows == ReplaceToken(old(rows), row)
    {
      var r := ReplaceToken(rows, row);
      assert forall k :: 0 <= k < |rows| ==> r[k].id == rows[k].id && r[k].token == rows[k].token;
      rows := r;
    }

    /** deleteExpiredTokens */
    method DeleteExpiredTokens(now: Instant)
      requires Valid()
      modifies this
      ensures Valid() && nextId == old(nextId)
      ensures rows == WithoutExpired(old(rows), now)
    {
      FilterKeepsUnique(rows, (t: TokenRow) => !(t.expiresAt < now));
      rows := WithoutExpired(rows, now);
    }

    /** deleteByUser */
    method DeleteByUser(userId: int)
      requires Valid()
      modifies this
      ensures Valid() && nextId == old(nextId)
      ensures rows == WithoutUser(old(rows), userId)
    {
      FilterKeepsUnique(rows, (t: TokenRow) => t.userId != userId);
      rows := WithoutUser(rows, userId);
    }
  }
}
