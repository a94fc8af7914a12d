/**
  * The rules TableReservationService applies before it touches the store: the
  * service windows, the date and party-size checks, the area names, the
  * 24-hour notice for changes, and the per-area seat ceilings with the
  * capacity conditions of create and update.
  */
module ReservationRules {
  import opened Common
  import opened ReservationRepository

  const MaxIndoorCapacity: int := 60
  const MaxOutdoorCapacity: int := 40

  /** 12:00, 15:00, 19:00 and 23:00 as minutes of the day. */
  const OpeningLunchTime: TimeOfDay := 12 * 60
  const ClosingLunchTime: TimeOfDay := 15 * 60
  const OpeningDinnerTime: TimeOfDay := 19 * 60
  const ClosingDinnerTime: TimeOfDay := 23 * 60

  const MinPeople: int := 1
  const MaxPeople: int := 20

  /** Changes and cancellations need this many hours of notice. */
  const NoticeHours: int := 24

  /** The exceptions the reservation service throws. */
  datatype ReservationError =
    | InvalidReservationDate
    | InvalidReservationTime
    | InvalidNumberOfPeople
    | UserNotFound
      /** ReservationArea.valueOf rejecting the name (IllegalArgumentException) */
    | UnknownArea
    | ReservationNotFound
    | CapacityExceeded(area: string, date: Day, maxCapacity: int)
    | LateCancellation

  /** TableReservationRequestDTO; the area arrives as free text. */
  datatype ReservationRequest = ReservationRequest(
    reservationDate: Day,
    reservationTime: TimeOfDay,
    numberOfPeople: int,
    reservationArea: string)

  /** getMaxCapacityForArea: INDOOR has the larger room, every other area the smaller one. */
  function GetMaxCapacityForArea(area: ReservationArea): (c: int)
    ensures c == MaxIndoorCapacity <==> area == INDOOR
    ensures c == MaxOutdoorCapacity <==> area != INDOOR
  {
    if area == INDOOR then MaxIndoorCapacity else MaxOutdoorCapacity
  }

  // ---------------------------------------------------------------------------
  // Field checks
  // ---------------------------------------------------------------------------

  /**
    * The opening-hours test, written as the service writes it with isAfter and
    * equals: lunch is half-open and dinner is closed.
    */
  function IsValidTime(t: TimeOfDay): (b: bool)
    ensures b <==> (OpeningLunchTime <= t < ClosingLunchTime) || (OpeningDinnerTime <= t <= ClosingDinnerTime)
  {
    ((t > OpeningLunchTime || t == OpeningLunchTime) && t < ClosingLunchTime)
    || ((t > OpeningDinnerTime || t == OpeningDinnerTime) && (t < ClosingDinnerTime || t == ClosingDinnerTime))
  }

  /** 12:00, 19:00 and 23:00 are bookable; 11:59, 15:00, 18:59 and 23:01 are not. */
  lemma ValidTimeBoundaries()
    ensures IsValidTime(12 * 60) && IsValidTime(19 * 60) && IsValidTime(23 * 60) && IsValidTime(14 * 60 + 59)
    ensures !IsValidTime(11 * 60 + 59) && !IsValidTime(15 * 60) && !IsValidTime(18 * 60 + 59)
    ensures !IsValidTime(23 * 60 + 1)
  {
  }

  /**
    * The three request checks in the order the service runs them: a date before
    * today, a time outside the windows, a party outside 1..20.
    */
  function CheckRequestFields(request: ReservationRequest, today: Day): (e: Option<ReservationError>)
    ensures e.None? <==> && today <= request.reservationDate
                         && IsValidTime(request.reservationTime)
                         && MinPeople <= request.numberOfPeople <= MaxPeople
    ensures request.reservationDate < today ==> e == Some(InvalidReservationDate)
    ensures today <= request.reservationDate && !IsValidTime(request.reservationTime)
            ==> e == Some(InvalidReservationTime)
    ensures e.Some? ==> e.value in {InvalidReservationDate, InvalidReservationTime, InvalidNumberOfPeople}
  {
    if request.reservationDate < today then Some(InvalidReservationDate)
    else if !IsValidTime(request.reservationTime) then Some(InvalidReservationTime)
    else if request.numberOfPeople < MinPeople || request.numberOfPeople > MaxPeople then Some(InvalidNumberOfPeople)
    else None
  }

  /** Today is accepted at any hour; yesterday is not. */
  lemma TodayIsAccepted(request: ReservationRequest, today: Day)
    requires IsValidTime(request.reservationTime) && MinPeople <= request.numberOfPeople <= MaxPeople
    ensures request.reservationDate == today ==> CheckRequestFields(request, today).None?
    ensures request.reservationDate == today - 1 ==> CheckRequestFields(request, today) == Some(InvalidReservationDate)
  {
  }

  // ---------------------------------------------------------------------------
  // Area names: ReservationArea.valueOf(name.toUpperCase()) and area.name()
  // ---------------------------------------------------------------------------

  function UpperChar(c: char): char {
    if 'a' <= c <= 'z' then (c as int - 32) as char else c
  }

  /** String.toUpperCase on the ASCII letters. */
  function ToUpperCase(s: string): (r: string)
    ensures |r| == |s|
    ensures forall k :: 0 <= k < |s| ==> r[k] == UpperChar(s[k])
  {
    seq(|s|, k requires 0 <= k < |s| => UpperChar(s[k]))
  }

  /** Enum.name() */
  function AreaName(area: ReservationArea): string {
    match area
    case INDOOR => "INDOOR"
    case OUTDOOR => "OUTDOOR"
  }

  /** ReservationArea.valueOf(s.toUpperCase()); None where valueOf throws. */
  function ParseArea(s: string): (o: Option<ReservationArea>)
    ensures o.Some? ==> ToUpperCase(s) == AreaName(o.value)
    ensures o.None? <==> forall area :: ToUpperCase(s) != AreaName(area)
  {
    var name := ToUpperCase(s);
    if name == "INDOOR" then Some(INDOOR)
    else if name == "OUTDOOR" then Some(OUTDOOR)
    else None
  }

  /** Parsing an area's own name gives the area back. */
  lemma {:induction false} ParseAreaName(area: ReservationArea)
    ensures ParseArea(AreaName(area)) == Some(area)
  {
    var name := AreaName(area);
    assert forall k :: 0 <= k < |name| ==> UpperChar(name[k]) == name[k];
    assert ToUpperCase(name) == name;
  }

  /** Area names are matched regardless of case; other names are rejected. */
  lemma ParseAreaExamples()
    ensures ParseArea("indoor") == Some(INDOOR)
    ensures ParseArea("Outdoor") == Some(OUTDOOR)
    ensures ParseArea("terrace").None?
  {
    assert ToUpperCase("indoor") == "INDOOR";
    assert ToUpperCase("Outdoor") == "OUTDOOR";
    assert ToUpperCase("terrace")[0] == 'T';
  }

  // ---------------------------------------------------------------------------
  // 24-hour notice
  // ---------------------------------------------------------------------------

  /** now.isAfter(LocalDateTime.of(date, time).minusHours(24)) */
  function IsTooLateToChange(r: TableReservation, now: Instant): (late: bool)
    ensures late <==> DateTime(r.reservationDate, r.reservationTime) - now < NoticeHours * MinutesPerHour
  {
    now > PlusHours(DateTime(r.reservationDate, r.reservationTime), -NoticeHours)
  }

  /** Exactly 24 hours before is still in time; one minute later is too late. */
  lemma DeadlineBoundary(r: TableReservation)
    ensures var booked := DateTime(r.reservationDate, r.reservationTime);
      && !IsTooLateToChange(r, booked - 24 * 60)
      && !IsTooLateToChange(r, booked - 24 * 60 - 1)
      && IsTooLateToChange(r, booked - 24 * 60 + 1)
      && IsTooLateToChange(r, booked)
  {
  }

  // ---------------------------------------------------------------------------
  // Capacity
  // ---------------------------------------------------------------------------

  /** Seats taken in one (area, day) bucket. */
  function SeatsTaken(rows: seq<TableReservation>, area: ReservationArea, date: Day): int {
    CountReservedSeatsByAreaAndDate(rows, area, date, date)
  }

  /** Every (area, day) bucket is within its area's ceiling. */
  ghost predicate WithinCapacity(rows: seq<TableReservation>) {
    forall area, date :: SeatsTaken(rows, area, date) <= GetMaxCapacityForArea(area)
  }

  /** The create check: the party fits beside the seats already taken in its bucket. */
  predicate Fits(rows: seq<TableReservation>, area: ReservationArea, date: Day, people: int) {
    SeatsTaken(rows, area, date) + people <= GetMaxCapacityForArea(area)
  }

  /** A create that passes the check keeps every bucket within its ceiling. */
  lemma CreateKeepsCapacity(rows: seq<TableReservation>, r: TableReservation)
    requires WithinCapacity(rows)
    requires Fits(rows, r.reservationArea, r.reservationDate, r.numberOfPeople)
    ensures WithinCapacity(rows + [r])
  {
    forall area, date ensures SeatsTaken(rows + [r], area, date) <= GetMaxCapacityForArea(area) {
      assert SeatsTaken(rows, area, date) <= GetMaxCapacityForArea(area);
      CountAppend(rows, r, area, date, date);
    }
  }

  /** The seats a three-row table holds in one bucket. */
  lemma SeatsOfThree(a: TableReservation, b: TableReservation, c: TableReservation,
                     area: ReservationArea, date: Day)
    ensures SeatsTaken([a, b, c], area, date)
         == SeatsOf(a, area, date, date) + SeatsOf(b, area, date, date) + SeatsOf(c, area, date, date)
  {
    assert [a, b, c][1..] == [b, c] && [b, c][1..] == [c] && [c][1..] == [];
    assert CountReservedSeatsByAreaAndDate([c], area, date, date) == SeatsOf(c, area, date, date);
    assert CountReservedSeatsByAreaAndDate([b, c], area, date, date)
        == SeatsOf(b, area, date, date) + SeatsOf(c, area, date, date);
  }

  /** With 58 indoor seats taken a party of 2 fits; after it, a party of 1 does not. */
  lemma FitsExample(d: Day, t: TimeOfDay)
    ensures var rows := [TableReservation(1, d, t, 20, INDOOR, 1), TableReservation(2, d, t, 20, INDOOR, 1),
                         TableReservation(3, d, t, 18, INDOOR, 1)];
      && Fits(rows, INDOOR, d, 2)
      && !Fits(rows + [TableReservation(4, d, t, 2, INDOOR, 1)], INDOOR, d, 1)
  {
    var rows := [TableReservation(1, d, t, 20, INDOOR, 1), TableReservation(2, d, t, 20, INDOOR, 1),
                 TableReservation(3, d, t, 18, INDOOR, 1)];
    SeatsOfThree(rows[0], rows[1], rows[2], INDOOR, d);
    assert rows == [rows[0], rows[1], rows[2]];
    CountAppend(rows, TableReservation(4, d, t, 2, INDOOR, 1), INDOOR, d, d);
  }

  /** Update re-checks capacity only when the date, the area or the party size changes. */
  predicate NeedsCapacityCheck(r: TableReservation, newDate: Day, newArea: ReservationArea, newPeople: int) {
    r.reservationDate != newDate || r.reservationArea != newArea || r.numberOfPeople != newPeople
  }

  /**
    * The update check as the service writes it: the seats of the reservation's
    * CURRENT bucket, minus its old party, plus the new party, against the NEW
    * area's ceiling. The new bucket is never counted.
    */
  predicate UpdateFitsAsWritten(rows: seq<TableReservation>, r: TableReservation,
                                newArea: ReservationArea, newPeople: int) {
    SeatsTaken(rows, r.reservationArea, r.reservationDate) - r.numberOfPeople + newPeople
      <= GetMaxCapacityForArea(newArea)
  }

  /**
    * The update check as evidently intended: within the same bucket the old
    * party is given back first; in another bucket the new party must fit beside
    * the seats already taken there.
    */
  predicate UpdateFitsIntended(rows: seq<TableReservation>, r: TableReservation,
                               newDate: Day, newArea: ReservationArea, newPeople: int) {
    if r.reservationArea == newArea && r.reservationDate == newDate then
      SeatsTaken(rows, newArea, newDate) - r.numberOfPeople + newPeople <= GetMaxCapacityForArea(newArea)
    else
      Fits(rows, newArea, newDate, newPeople)
  }

  /** When the reservation stays in its bucket, the written check is the intended one. */
  lemma SameBucketChecksAgree(rows: seq<TableReservation>, r: TableReservation, newPeople: int)
    ensures UpdateFitsAsWritten(rows, r, r.reservationArea, newPeople)
        <==> UpdateFitsIntended(rows, r, r.reservationDate, r.reservationArea, newPeople)
  {
  }

  /**
    * An update that keeps row k in its bucket and passes the written check (or
    * skips it because nothing that matters changed) keeps every bucket within
    * its ceiling.
    */
  lemma SameBucketUpdateKeepsCapacity(rows: seq<TableReservation>, k: nat, x: TableReservation)
    requires WithinCapacity(rows) && k < |rows|
    requires x.reservationArea == rows[k].reservationArea && x.reservationDate == rows[k].reservationDate
    requires NeedsCapacityCheck(rows[k], x.reservationDate, x.reservationArea, x.numberOfPeople)
             ==> UpdateFitsAsWritten(rows, rows[k], x.reservationArea, x.numberOfPeople)
    ensures WithinCapacity(rows[k := x])
  {
    var updated := rows[k := x];
    forall area, date ensures SeatsTaken(updated, area, date) <= GetMaxCapacityForArea(area) {
      assert SeatsTaken(rows, area, date) <= GetMaxCapacityForArea(area);
      CountReplace(rows, k, x, area, date, date);
    }
  }

  /** An update that passes the intended check keeps every bucket within its ceiling. */
  lemma IntendedUpdateKeepsCapacity(rows: seq<TableReservation>, k: nat, x: TableReservation)
    requires WithinCapacity(rows) && k < |rows| && rows[k].numberOfPeople >= 0
    requires UpdateFitsIntended(rows, rows[k], x.reservationDate, x.reservationArea, x.numberOfPeople)
    ensures WithinCapacity(rows[k := x])
  {
    var updated := rows[k := x];
    forall area, date ensures SeatsTaken(updated, area, date) <= GetMaxCapacityForArea(area) {
      assert SeatsTaken(rows, area, date) <= GetMaxCapacityForArea(area);
      CountReplace(rows, k, x, area, date, date);
    }
  }

  /**
    * The written check lets a move overbook the target bucket: two parties of 20
    * fill the outdoor area on day d, and moving an indoor party of 2 out there
    * passes the check (2 - 2 + 2 <= 40) but leaves 42 outdoor seats taken.
    */
  lemma UpdateAsWrittenCanOverbook(d: Day, t: TimeOfDay)
    ensures var rows := [TableReservation(1, d, t, 20, OUTDOOR, 1), TableReservation(2, d, t, 20, OUTDOOR, 1),
                         TableReservation(3, d, t, 2, INDOOR, 1)];
      && WithinCapacity(rows)
      && NeedsCapacityCheck(rows[2], d, OUTDOOR, 2)
      && UpdateFitsAsWritten(rows, rows[2], OUTDOOR, 2)
      && !UpdateFitsIntended(rows, rows[2], d, OUTDOOR, 2)
      && !WithinCapacity(rows[2 := rows[2].(reservationArea := OUTDOOR)])
  {
    var rows := [TableReservation(1, d, t, 20, OUTDOOR, 1), TableReservation(2, d, t, 20, OUTDOOR, 1),
                 TableReservation(3, d, t, 2, INDOOR, 1)];
    assert rows == [rows[0], rows[1], rows[2]];
    forall area, date ensures SeatsTaken(rows, area, date) <= GetMaxCapacityForArea(area) {
      SeatsOfThree(rows[0], rows[1], rows[2], area, date);
    }
    SeatsOfThree(rows[0], rows[1], rows[2], INDOOR, d);
    SeatsOfThree(rows[0], rows[1], rows[2], OUTDOOR, d);
    var moved := rows[2 := rows[2].(reservationArea := OUTDOOR)];
    assert moved == [moved[0], moved[1], moved[2]];
    SeatsOfThree(moved[0], moved[1], moved[2], OUTDOOR, d);
  }

  /** A delete keeps every bucket within its ceiling. */
  lemma DeleteKeepsCapacity(rows: seq<TableReservation>, k: nat)
    requires WithinCapacity(rows) && k < |rows| && rows[k].numberOfPeople >= 0
    ensures WithinCapacity(rows[..k] + rows[k + 1..])
  {
    var rest := rows[..k] + rows[k + 1..];
    forall area, date ensures SeatsTaken(rest, area, date) <= GetMaxCapacityForArea(area) {
      assert SeatsTaken(rows, area, date) <= GetMaxCapacityForArea(area);
      CountRemove(rows, k, area, date, date);
    }
  }
}
