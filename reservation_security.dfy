/**
  * ReservationSecurityService: the ownership decisions the reservation
  * endpoints ask before they run. A refusal is the UnauthorizedOperation
  * exception; none of the checks ever answers false.
  */
module ReservationSecurity {
  import opened Common
  import opened ReservationRepository
  import Users

  datatype SecurityError = UnauthorizedOperation

  /** isOwner: true when the reservation belongs to the user, otherwise it throws. */
  function IsOwner(rows: seq<TableReservation>, reservationId: int, user: Users.User): (r: Result<bool, SecurityError>)
    ensures r.Ok? ==> r.value
    ensures r.Ok? <==> exists k :: 0 <= k < |rows| && rows[k].id == reservationId && rows[k].userId == user.id
  {
    if !ExistsByIdAndUserId(rows, reservationId, user.id) then Err(UnauthorizedOperation) else Ok(true)
  }

  /** canAccessReservation: an ADMIN passes without a lookup; anyone else must own the reservation. */
  function CanAccessReservation(rows: seq<TableReservation>, reservationId: int, user: Users.User)
    : (r: Result<bool, SecurityError>)
    ensures user.ruolo == Users.ADMIN ==> r == Ok(true)
    ensures r.Ok? ==> r.value
    ensures user.ruolo != Users.ADMIN ==>
      (r.Ok? <==> exists k :: 0 <= k < |rows| && rows[k].id == reservationId && rows[k].userId == user.id)
  {
    if user.ruolo == Users.ADMIN then Ok(true)
    else if !ExistsByIdAndUserId(rows, reservationId, user.id) then Err(UnauthorizedOperation)
    else Ok(true)
  }

  /** isOwnerOrAdmin: an ADMIN passes; anyone else goes through isOwner. */
  function IsOwnerOrAdmin(rows: seq<TableReservation>, reservationId: int, user: Users.User)
    : (r: Result<bool, SecurityError>)
    ensures user.ruolo == Users.ADMIN ==> r == Ok(true)
    ensures user.ruolo != Users.ADMIN ==> r == IsOwner(rows, reservationId, user)
  {
    if user.ruolo == Users.ADMIN then Ok(true) else IsOwner(rows, reservationId, user)
  }

  /** The two entry points written separately take the same decision on every input. */
  lemma CanAccessIsOwnerOrAdmin(rows: seq<TableReservation>, reservationId: int, user: Users.User)
    ensures CanAccessReservation(rows, reservationId, user) == IsOwnerOrAdmin(rows, reservationId, user)
  {
  }

  /**
    * With unique ids, a non-admin passes exactly when the row findById returns
    * belongs to them; asking about a reservation that does not exist is refused
    * as unauthorized rather than reported as missing.
    */
  lemma {:induction false} OwnershipIsOwnerOfFoundRow(rows: seq<TableReservation>, reservationId: int, user: Users.User)
    requires UniqueIds(rows) && user.ruolo != Users.ADMIN
    ensures CanAccessReservation(rows, reservationId, user).Ok?
        <==> FindById(rows, reservationId).Some? && FindById(rows, reservationId).value.userId == user.id
    ensures FindById(rows, reservationId).None?
        ==> CanAccessReservation(rows, reservationId, user) == Err(UnauthorizedOperation)
  {
    if CanAccessReservation(rows, reservationId, user).Ok? {
      var k :| 0 <= k < |rows| && rows[k].id == reservationId && rows[k].userId == user.id;
      FindByIdUnique(rows, k);
    }
    var found := FindById(rows, reservationId);
    if found.Some? && found.value.userId == user.id {
      var k :| 0 <= k < |rows| && rows[k] == found.value;
    }
  }
}
