/**
  * The EmailVerificationToken entity: the stored row, and the in-memory entity
  * with its builder defaults, its @PrePersist hook, the expiry and validity
  * checks, and markAsUsed. A token is fresh until it is used or expires.
  */
module VerificationTokens {
  import opened Common

  /** How long a token lives, in hours. */
  const TokenLifetimeHours: int := 24

  /** A row of email_verification_tokens; the user is referenced by id. */
  datatype TokenRow = TokenRow(
    id: int,
    token: string,
    userId: int,
    createdAt: Instant,
    expiresAt: Instant,
    verifiedAt: Option<Instant>,
    used: bool)

  /** isExpired on a row: `now` is strictly after expiresAt. */
  predicate RowExpired(row: TokenRow, now: Instant) {
    now > row.expiresAt
  }

  /** isValid on a row: not used, not expired and never verified. */
  predicate RowValid(row: TokenRow, now: Instant) {
    !row.used && !RowExpired(row, now) && row.verifiedAt.None?
  }

  /** The row markAsUsed leaves behind. */
  function MarkedRow(row: TokenRow, now: Instant): (r: TokenRow)
    ensures r.used && r.verifiedAt == Some(now)
    ensures r.id == row.id && r.token == row.token && r.userId == row.userId
    ensures r.createdAt == row.createdAt && r.expiresAt == row.expiresAt
  {
    row.(used := true, verifiedAt := Some(now))
  }

  /** A token expires at the end of its expiry minute, not at it: the comparison is strict. */
  lemma ExpiryIsStrict(row: TokenRow)
    ensures !RowExpired(row, row.expiresAt)
    ensures RowExpired(row, row.expiresAt + 1)
    ensures forall t :: t <= row.expiresAt ==> !RowExpired(row, t)
  {
  }

  /** Once expired a token stays expired: validity only ever goes from true to false over time. */
  lemma ValidityIsMonotone(row: TokenRow, earlier: Instant, later: Instant)
    requires earlier <= later && RowValid(row, later)
    ensures RowValid(row, earlier)
  {
  }

  /** A marked row is never valid again, whatever the time. */
  lemma MarkedRowNeverValid(row: TokenRow, now: Instant, t: Instant)
    ensures !RowValid(MarkedRow(row, now), t)
  {
  }

  /** The entity while a service works on it; null columns are None. */
  class EmailVerificationToken {
    var id: Option<int>
    var token: string
    var userId: int
    var createdAt: Option<Instant>
    var expiresAt: Option<Instant>
    var verifiedAt: Option<Instant>
    var used: bool

    /**
      * EmailVerificationToken.builder()...build(): createdAt defaults to the
      * time of building and used to false; expiresAt stays null unless given.
      */
    constructor Build(token: string, userId: int, createdAt: Option<Instant>, expiresAt: Option<Instant>, now: Instant)
      ensures this.id.None? && this.token == token && this.userId == userId
      ensures this.createdAt == Some(createdAt.GetOr(now)) && this.expiresAt == expiresAt
      ensures this.verifiedAt.None? && !this.used
    {
      this.id := None;
      this.token := token;
      this.userId := userId;
      this.createdAt := Some(createdAt.GetOr(now));
      this.expiresAt := expiresAt;
      this.verifiedAt := None;
      this.used := false;
    }

    /** The entity findByToken hands back for a stored row. */
    constructor Load(row: TokenRow)
      ensures Stored() && Row() == row
    {
      this.id := Some(row.id);
      this.token := row.token;
      this.userId := row.userId;
      this.createdAt := Some(row.createdAt);
      this.expiresAt := Some(row.expiresAt);
      this.verifiedAt := row.verifiedAt;
      this.used := row.used;
    }

    /** The columns that are NOT NULL in the table are set. */
    predicate Stored()
      reads this
    {
      id.Some? && createdAt.Some? && expiresAt.Some?
    }

    /** The row this entity is stored as. */
    function Row(): (row: TokenRow)
      reads this
      requires Stored()
      ensures row.id == id.value && row.token == token && row.userId == userId
      ensures Some(row.createdAt) == createdAt && Some(row.expiresAt) == expiresAt
      ensures row.verifiedAt == verifiedAt && row.used == used
    {
      TokenRow(id.value, token, userId, createdAt.value, expiresAt.value, verifiedAt, used)
    }

    /**
      * onCreate (@PrePersist): a missing createdAt becomes `now`, then a missing
      * expiresAt becomes createdAt plus 24 hours; values already set are kept.
      */
    method OnCreate(now: Instant)
      modifies this
      ensures createdAt == Some(old(createdAt).GetOr(now))
      ensures expiresAt == Some(old(expiresAt).GetOr(PlusHours(createdAt.value, TokenLifetimeHours)))
      ensures id == old(id) && token == old(token) && userId == old(userId)
      ensures verifiedAt == old(verifiedAt) && used == old(used)
    {
      if createdAt.None? {
        createdAt := Some(now);
      }
      if expiresAt.None? {
        expiresAt := Some(PlusHours(createdAt.value, TokenLifetimeHours));
      }
    }

    /** isExpired: the time is strictly after expiresAt (a null expiresAt would throw). */
    predicate IsExpired(now: Instant)
      reads this
      requires expiresAt.Some?
    {
      now > expiresAt.value
    }

    /** isValid */
    predicate IsValid(now: Instant)
      reads this
      requires expiresAt.Some?
    {
      !used && !IsExpired(now) && verifiedAt.None?
    }

    /** markAsUsed: the token is used and verified at `now`; nothing else changes. */
    method MarkAsUsed(now: Instant)
      requires expiresAt.Some?
      modifies this
      ensures id == old(id) && token == old(token) && userId == old(userId)
      ensures createdAt == old(createdAt) && expiresAt == old(expiresAt)
      ensures used && verifiedAt == Some(now)
      ensures forall t :: !IsValid(t)
    {
      used := true;
      verifiedAt := Some(now);
    }
  }

  /** A built token is not used; onCreate then dates it and gives it the 24-hour lifetime unless one was given. */
  method BuildThenCreate(token: string, userId: int, now: Instant) returns (t: EmailVerificationToken)
    ensures fresh(t) && !t.used && t.verifiedAt.None?
    ensures t.createdAt == Some(now) && t.expiresAt == Some(PlusHours(now, TokenLifetimeHours))
    ensures t.IsValid(now) && t.IsValid(PlusHours(now, TokenLifetimeHours))
    ensures !t.IsValid(PlusHours(now, TokenLifetimeHours) + 1)
  {
    t := new EmailVerificationToken.Build(token, userId, None, None, now);
    t.OnCreate(now);
  }
}
