/**
  * TableReservationService: create, read, update and cancel table reservations
  * against the per-area seat ceilings. The clock is a parameter: `today` for
  * create, `now` (a minute count) for update and delete.
  */
module ReservationService {
  import opened Common
  import opened ReservationRepository
  import opened ReservationRules
  import opened Rows
  import Users

  /** TableReservationResponseDTO */
  datatype TableReservationResponse = TableReservationResponse(
    id: int,
    reservationDate: Day,
    reservationTime: TimeOfDay,
    numberOfPeople: int,
    reservationArea: ReservationArea,
    userId: int,
    userFullName: string)

  /** convertToDTO: the row's fields plus the owner's "nome cognome". */
  function ConvertToDTO(r: TableReservation, owner: Users.User): (dto: TableReservationResponse)
    requires owner.id == r.userId
    ensures RowOf(dto) == r
    ensures dto.userFullName == owner.nome + " " + owner.cognome
  {
    TableReservationResponse(r.id, r.reservationDate, r.reservationTime, r.numberOfPeople,
                             r.reservationArea, owner.id, owner.nome + " " + owner.cognome)
  }

  /** The reservation a response describes. */
  function RowOf(dto: TableReservationResponse): TableReservation {
    TableReservation(dto.id, dto.reservationDate, dto.reservationTime, dto.numberOfPeople,
                     dto.reservationArea, dto.userId)
  }

  /**
    * The checks of createReservation in the order it runs them: the request
    * fields, the user, the area name, then the seats of the (area, date) bucket.
    */
  function CreateCheck(rows: seq<TableReservation>, userExists: bool, request: ReservationRequest, today: Day)
    : (e: Option<ReservationError>)
    ensures e.None? <==> && CheckRequestFields(request, today).None? && userExists
                         && ParseArea(request.reservationArea).Some?
                         && Fits(rows, ParseArea(request.reservationArea).value,
                                 request.reservationDate, request.numberOfPeople)
  {
    var fields := CheckRequestFields(request, today);
    if fields.Some? then fields
    else if !userExists then Some(UserNotFound)
    else
      match ParseArea(request.reservationArea)
      case None => Some(UnknownArea)
      case Some(area) =>
        if Fits(rows, area, request.reservationDate, request.numberOfPeople) then None
        else Some(CapacityExceeded(AreaName(area), request.reservationDate, GetMaxCapacityForArea(area)))
  }

  /** A bad date, time or party size is reported whatever the store holds. */
  lemma CreateFieldErrorsFirst(rows: seq<TableReservation>, userExists: bool, request: ReservationRequest, today: Day)
    requires CheckRequestFields(request, today).Some?
    ensures CreateCheck(rows, userExists, request, today) == CheckRequestFields(request, today)
  {
  }

  /** CapacityExceeded names the requested area, the requested date and that area's ceiling. */
  lemma CreateCapacityError(rows: seq<TableReservation>, request: ReservationRequest, today: Day, area: ReservationArea)
    requires CheckRequestFields(request, today).None? && ParseArea(request.reservationArea) == Some(area)
    requires !Fits(rows, area, request.reservationDate, request.numberOfPeople)
    ensures CreateCheck(rows, true, request, today)
         == Some(CapacityExceeded(AreaName(area), request.reservationDate, GetMaxCapacityForArea(area)))
  {
  }

  /**
    * The checks of updateReservation after the lookup, in order: the 24-hour
    * notice on the ORIGINAL date and time, the request fields, the area name,
    * then the written capacity check when date, area or party size changes.
    */
  function UpdateCheck(rows: seq<TableReservation>, r: TableReservation, request: ReservationRequest, now: Instant)
    : (e: Option<ReservationError>)
    ensures e.None? <==> && !IsTooLateToChange(r, now)
                         && CheckRequestFields(request, DayOf(now)).None?
                         && ParseArea(request.reservationArea).Some?
                         && var area := ParseArea(request.reservationArea).value;
                            (!NeedsCapacityCheck(r, request.reservationDate, area, request.numberOfPeople)
                             || UpdateFitsAsWritten(rows, r, area, request.numberOfPeople))
  {
    if IsTooLateToChange(r, now) then Some(LateCancellation)
    else
      var fields := CheckRequestFields(request, DayOf(now));
      if fields.Some? then fields
      else
        match ParseArea(request.reservationArea)
        case None => Some(UnknownArea)
        case Some(area) =>
          if NeedsCapacityCheck(r, request.reservationDate, area, request.numberOfPeople)
             && !UpdateFitsAsWritten(rows, r, area, request.numberOfPeople)
          then Some(CapacityExceeded(AreaName(area), request.reservationDate, GetMaxCapacityForArea(area)))
          else None
  }

  /** Inside the notice period a bad date, time or party size is reported whatever the store holds. */
  lemma UpdateFieldErrorsFirst(rows: seq<TableReservation>, r: TableReservation, request: ReservationRequest, now: Instant)
    requires !IsTooLateToChange(r, now) && CheckRequestFields(request, DayOf(now)).Some?
    ensures UpdateCheck(rows, r, request, now) == CheckRequestFields(request, DayOf(now))
  {
  }

  /** An update is refused as too late exactly when it is inside the 24 hours, whatever it asks for. */
  lemma UpdateLateIff(rows: seq<TableReservation>, r: TableReservation, request: ReservationRequest, now: Instant)
    ensures UpdateCheck(rows, r, request, now) == Some(LateCancellation) <==> IsTooLateToChange(r, now)
  {
  }

  /** Changing only the time (same date, area and party) never runs into the ceiling. */
  lemma TimeOnlyChangeSkipsCapacity(rows: seq<TableReservation>, r: TableReservation,
                                    request: ReservationRequest, now: Instant)
    requires request.reservationDate == r.reservationDate && request.numberOfPeople == r.numberOfPeople
    requires ParseArea(request.reservationArea) == Some(r.reservationArea)
    ensures UpdateCheck(rows, r, request, now).None?
         <==> !IsTooLateToChange(r, now) && CheckRequestFields(request, DayOf(now)).None?
  {
  }

  /** The reservation as updateReservation leaves it: the four request fields, the same id and user. */
  function Updated(r: TableReservation, request: ReservationRequest, area: ReservationArea): (u: TableReservation)
    ensures u.id == r.id && u.userId == r.userId
    ensures u.reservationDate == request.reservationDate && u.reservationTime == request.reservationTime
    ensures u.numberOfPeople == request.numberOfPeople && u.reservationArea == area
  {
    r.(reservationDate := request.reservationDate, reservationTime := request.reservationTime,
       numberOfPeople := request.numberOfPeople, reservationArea := area)
  }

  /** The user_id foreign key: every reservation's user is in the users table. */
  ghost predicate OwnersExist(rows: seq<TableReservation>, userRows: seq<Users.User>) {
    forall r :: r in rows ==> Users.FindById(userRows, r.userId).Some?
  }

  /** Overwriting a reservation with one of the same user keeps the foreign key. */
  lemma OwnersExistAfterReplace(rows: seq<TableReservation>, userRows: seq<Users.User>, k: nat, u: TableReservation)
    requires OwnersExist(rows, userRows) && k < |rows| && rows[k].userId == u.userId
    ensures OwnersExist(rows[k := u], userRows)
  {
    ReplaceMembers(rows, k, u);
  }

  /** Deleting reservations keeps the foreign key. */
  lemma OwnersExistAfterDelete(rows: seq<TableReservation>, userRows: seq<Users.User>, id: int)
    requires OwnersExist(rows, userRows)
    ensures OwnersExist(WithoutId(rows, id), userRows)
  {
  }

  /** Saving a reservation of an existing user keeps the foreign key. */
  lemma OwnersExistAfterInsert(rows: seq<TableReservation>, userRows: seq<Users.User>, r: TableReservation)
    requires OwnersExist(rows, userRows) && Users.FindById(userRows, r.userId).Some?
    ensures OwnersExist(rows + [r], userRows)
  {
  }

  class TableReservationService {
    const reservations: TableReservationRepository
    const users: Users.UserRepository

    /** Both stores are consistent and every reservation's user exists (the user_id foreign key). */
    ghost predicate Valid()
      reads this, reservations, users
    {
      && reservations.Valid()
      && users.Valid()
      && OwnersExist(reservations.rows, users.users)
    }

    constructor (reservations: TableReservationRepository, users: Users.UserRepository)
      requires reservations.Valid() && users.Valid() && OwnersExist(reservations.rows, users.users)
      ensures this.reservations == reservations && this.users == users && Valid()
    {
      this.reservations := reservations;
      this.users := users;
    }

    /** The user a reservation belongs to. */
    function OwnerOf(r: TableReservation): (owner: Users.User)
      requires Users.FindById(users.users, r.userId).Some?
      reads this, users
      ensures owner in users.users && owner.id == r.userId
    {
      Users.FindById(users.users, r.userId).value
    }

    method CreateReservation(userId: int, request: ReservationRequest, today: Day)
      returns (result: Result<TableReservationResponse, ReservationError>)
      requires Valid()
      modifies reservations
      ensures Valid()
      ensures var e := CreateCheck(old(reservations.rows), Users.FindById(users.users, userId).Some?, request, today);
        && (result.Err? <==> e.Some?)
        && (result.Err? ==> result.error == e.value && unchanged(reservations))
      ensures result.Ok? ==>
        var saved := TableReservation(old(reservations.nextId), request.reservationDate, request.reservationTime,
                                      request.numberOfPeople, ParseArea(request.reservationArea).value, userId);
        && reservations.rows == old(reservations.rows) + [saved]
        && result.value == ConvertToDTO(saved, OwnerOf(saved))
      ensures WithinCapacity(old(reservations.rows)) ==> WithinCapacity(reservations.rows)
    {
      var fields := CheckRequestFields(request, today);
      if fields.Some? {
        return Err(fields.value);
      }
      var user := Users.FindById(users.users, userId);
      if user.None? {
        return Err(UserNotFound);
      }
      var parsed := ParseArea(request.reservationArea);
      if parsed.None? {
        return Err(UnknownArea);
      }
      var area := parsed.value;
      var date := request.reservationDate;
      var reservedSeats := CountReservedSeatsByAreaAndDate(reservations.rows, area, date, date);
      var maxCapacity := GetMaxCapacityForArea(area);
      if reservedSeats + request.numberOfPeople > maxCapacity {
        return Err(CapacityExceeded(AreaName(area), date, maxCapacity));
      }
      var reservation := TableReservation(0, date, request.reservationTime, request.numberOfPeople, area, userId);
      ghost var before := reservations.rows;
      if WithinCapacity(before) {
        CreateKeepsCapacity(before, reservation.(id := reservations.nextId));
      }
      OwnersExistAfterInsert(before, users.users, reservation.(id := reservations.nextId));
      var saved := reservations.Insert(reservation);
      result := Ok(ConvertToDTO(saved, user.value));
    }

    method GetReservationById(id: int) returns (result: Result<TableReservationResponse, ReservationError>)
      requires Valid()
      ensures result.Err? <==> FindById(reservations.rows, id).None?
      ensures result.Err? ==> result.error == ReservationNotFound
      ensures result.Ok? ==> var r := FindById(reservations.rows, id).value;
        result.value == ConvertToDTO(r, OwnerOf(r)) && result.value.id == id
    {
      var found := FindById(reservations.rows, id);
      if found.None? {
        return Err(ReservationNotFound);
      }
      result := Ok(ConvertToDTO(found.value, OwnerOf(found.value)));
    }

    method UpdateReservation(id: int, request: ReservationRequest, now: Instant)
      returns (result: Result<TableReservationResponse, ReservationError>)
      requires Valid()
      modifies reservations
      ensures Valid()
      ensures FindById(old(reservations.rows), id).None? ==> result == Err(ReservationNotFound)
      ensures FindById(old(reservations.rows), id).Some? ==>
        var e := UpdateCheck(old(reservations.rows), FindById(old(reservations.rows), id).value, request, now);
        && (result.Err? <==> e.Some?)
        && (result.Err? ==> result.error == e.value)
      ensures result.Err? ==> unchanged(reservations)
      ensures result.Ok? ==> exists k ::
        && 0 <= k < |old(reservations.rows)| && old(reservations.rows)[k].id == id
        && var u := Updated(old(reservations.rows)[k], request, ParseArea(request.reservationArea).value);
        && reservations.rows == old(reservations.rows)[k := u]
        && result.value == ConvertToDTO(u, OwnerOf(u))
      ensures result.Ok? && WithinCapacity(old(reservations.rows))
              && ParseArea(request.reservationArea) == Some(FindById(old(reservations.rows), id).value.reservationArea)
              && request.reservationDate == FindById(old(reservations.rows), id).value.reservationDate
              ==> WithinCapacity(reservations.rows)
    {
      var found := FindById(reservations.rows, id);
      if found.None? {
        return Err(ReservationNotFound);
      }
      var reservation := found.value;
      var modificationDeadline := PlusHours(DateTime(reservation.reservationDate, reservation.reservationTime), -NoticeHours);
      if now > modificationDeadline {
        return Err(LateCancellation);
      }
      var fields := CheckRequestFields(request, DayOf(now));
      if fields.Some? {
        return Err(fields.value);
      }
      var parsed := ParseArea(request.reservationArea);
      if parsed.None? {
        return Err(UnknownArea);
      }
      var newArea := parsed.value;
      var newDate := request.reservationDate;
      if reservation.reservationDate != newDate || reservation.reservationArea != newArea
         || reservation.numberOfPeople != request.numberOfPeople {
        var currentBookedSeats := CountReservedSeatsByAreaAndDate(
          reservations.rows, reservation.reservationArea, reservation.reservationDate, reservation.reservationDate);
        var adjustedBookedSeats := currentBookedSeats - reservation.numberOfPeople;
        var maxCapacity := GetMaxCapacityForArea(newArea);
        if adjustedBookedSeats + request.numberOfPeople > maxCapacity {
          return Err(CapacityExceeded(AreaName(newArea), newDate, maxCapacity));
        }
      }
      var k :| 0 <= k < |reservations.rows| && reservations.rows[k] == reservation;
      var owner := OwnerOf(reservation);
      var u := Updated(reservation, request, newArea);
      ghost var before := reservations.rows;
      if WithinCapacity(before) && newArea == reservation.reservationArea && newDate == reservation.reservationDate {
        SameBucketUpdateKeepsCapacity(before, k, u);
      }
      OwnersExistAfterReplace(before, users.users, k, u);
      reservations.Update(u);
      assert reservations.rows == before[k := u] && before[k].id == id;
      assert u == Updated(before[k], request, ParseArea(request.reservationArea).value);
      result := Ok(ConvertToDTO(u, owner));
      assert result.value == ConvertToDTO(u, OwnerOf(u));
    }

    method DeleteReservation(id: int, now: Instant) returns (result: Result<(), ReservationError>)
      requires Valid()
      modifies reservations
      ensures Valid()
      ensures FindById(old(reservations.rows), id).None? ==> result == Err(ReservationNotFound)
      ensures FindById(old(reservations.rows), id).Some? ==>
        (result == Err(LateCancellation) <==> IsTooLateToChange(FindById(old(reservations.rows), id).value, now))
      ensures result.Err? <==> FindById(old(reservations.rows), id).None?
                               || IsTooLateToChange(FindById(old(reservations.rows), id).value, now)
      ensures result.Err? ==> unchanged(reservations)
      ensures result.Ok? ==> exists k ::
        && 0 <= k < |old(reservations.rows)| && old(reservations.rows)[k].id == id
        && reservations.rows == old(reservations.rows)[..k] + old(reservations.rows)[k + 1..]
      ensures WithinCapacity(old(reservations.rows)) ==> WithinCapacity(reservations.rows)
    {
      var found := FindById(reservations.rows, id);
      if found.None? {
        return Err(ReservationNotFound);
      }
      var reservation := found.value;
      var cancellationDeadline := PlusHours(DateTime(reservation.reservationDate, reservation.reservationTime), -NoticeHours);
      if now > cancellationDeadline {
        return Err(LateCancellation);
      }
      var k :| 0 <= k < |reservations.rows| && reservations.rows[k] == reservation;
      ghost var before := reservations.rows;
      if WithinCapacity(before) {
        DeleteKeepsCapacity(before, k);
      }
      WithoutIdKeepsOthers(before, id);
      OwnersExistAfterDelete(before, users.users, id);
      reservations.DeleteById(id);
      assert reservations.rows == before[..k] + before[k + 1..];
      result := Ok(());
    }
  }
}
