/**
  * TableReservationRepository: the table_reservations rows and the queries the
  * reservation service and the security checks run over them.
  */
module ReservationRepository {
  import opened Common
  import opened Rows

  datatype ReservationArea = INDOOR | OUTDOOR

  /** A row of table_reservations; the user is referenced by id. */
  datatype TableReservation = TableReservation(
    id: int,
    reservationDate: Day,
    reservationTime: TimeOfDay,
    numberOfPeople: int,
    reservationArea: ReservationArea,
    userId: int)

  /** The WHERE clause of countReservedSeatsByAreaAndDate. */
  predicate InBucket(r: TableReservation, area: ReservationArea, startDate: Day, endDate: Day) {
    r.reservationArea == area && startDate <= r.reservationDate <= endDate
  }

  /** What one row adds to the seat count of a bucket. */
  function SeatsOf(r: TableReservation, area: ReservationArea, startDate: Day, endDate: Day): int {
    if InBucket(r, area, startDate, endDate) then r.numberOfPeople else 0
  }

  /**
    * countReservedSeatsByAreaAndDate: COALESCE(SUM(numberOfPeople), 0) over the
    * rows of `area` whose date lies in [startDate, endDate].
    */
  function CountReservedSeatsByAreaAndDate(rows: seq<TableReservation>, area: ReservationArea,
                                           startDate: Day, endDate: Day): (n: int)
    ensures (forall k :: 0 <= k < |rows| ==> rows[k].numberOfPeople >= 0) ==> n >= 0
    ensures (forall k :: 0 <= k < |rows| ==> !InBucket(rows[k], area, startDate, endDate)) ==> n == 0
  {
    if rows == [] then 0
    else
      assert forall k :: 1 <= k < |rows| ==> rows[1..][k - 1] == rows[k];
      SeatsOf(rows[0], area, startDate, endDate) + CountReservedSeatsByAreaAndDate(rows[1..], area, startDate, endDate)
  }

  /** The count of a concatenation is the sum of the counts. */
  lemma {:induction false} CountConcat(a: seq<TableReservation>, b: seq<TableReservation>,
                                       area: ReservationArea, startDate: Day, endDate: Day)
    ensures CountReservedSeatsByAreaAndDate(a + b, area, startDate, endDate)
         == CountReservedSeatsByAreaAndDate(a, area, startDate, endDate)
          + CountReservedSeatsByAreaAndDate(b, area, startDate, endDate)
  {
    if a == [] {
      assert a + b == b;
    } else {
      assert (a + b)[0] == a[0] && (a + b)[1..] == a[1..] + b;
      CountConcat(a[1..], b, area, startDate, endDate);
    }
  }

  /**
    * Saving a new row raises the count by its party size when it falls in the
    * bucket and leaves the count unchanged otherwise.
    */
  lemma CountAppend(rows: seq<TableReservation>, r: TableReservation,
                    area: ReservationArea, startDate: Day, endDate: Day)
    ensures CountReservedSeatsByAreaAndDate(rows + [r], area, startDate, endDate)
         == CountReservedSeatsByAreaAndDate(rows, area, startDate, endDate)
          + (if InBucket(r, area, startDate, endDate) then r.numberOfPeople else 0)
  {
    CountConcat(rows, [r], area, startDate, endDate);
  }

  /** Overwriting row k moves its contribution from the old values to the new ones. */
  lemma CountReplace(rows: seq<TableReservation>, k: nat, x: TableReservation,
                     area: ReservationArea, startDate: Day, endDate: Day)
    requires k < |rows|
    ensures CountReservedSeatsByAreaAndDate(rows[k := x], area, startDate, endDate)
         == CountReservedSeatsByAreaAndDate(rows, area, startDate, endDate)
          - SeatsOf(rows[k], area, startDate, endDate) + SeatsOf(x, area, startDate, endDate)
  {
    assert rows == rows[..k] + [rows[k]] + rows[k + 1..];
    assert rows[k := x] == rows[..k] + [x] + rows[k + 1..];
    CountConcat(rows[..k] + [rows[k]], rows[k + 1..], area, startDate, endDate);
    CountConcat(rows[..k], [rows[k]], area, startDate, endDate);
    CountConcat(rows[..k] + [x], rows[k + 1..], area, startDate, endDate);
    CountConcat(rows[..k], [x], area, startDate, endDate);
  }

  /** Deleting row k removes exactly its contribution. */
  lemma CountRemove(rows: seq<TableReservation>, k: nat,
                    area: ReservationArea, startDate: Day, endDate: Day)
    requires k < |rows|
    ensures CountReservedSeatsByAreaAndDate(rows[..k] + rows[k + 1..], area, startDate, endDate)
         == CountReservedSeatsByAreaAndDate(rows, area, startDate, endDate)
          - SeatsOf(rows[k], area, startDate, endDate)
  {
    assert rows == rows[..k] + [rows[k]] + rows[k + 1..];
    CountConcat(rows[..k] + [rows[k]], rows[k + 1..], area, startDate, endDate);
    CountConcat(rows[..k], [rows[k]], area, startDate, endDate);
    CountConcat(rows[..k], rows[k + 1..], area, startDate, endDate);
  }

  /** existsByIdAndUser_Id */
  function ExistsByIdAndUserId(rows: seq<TableReservation>, reservationId: int, userId: int): (b: bool)
    ensures b <==> exists k :: 0 <= k < |rows| && rows[k].id == reservationId && rows[k].userId == userId
  {
    FindFirst(rows, (r: TableReservation) => r.id == reservationId && r.userId == userId).Some?
  }

  /** findById */
  function FindById(rows: seq<TableReservation>, id: int): (o: Option<TableReservation>)
    ensures o.Some? ==> o.value in rows && o.value.id == id
    ensures o.None? <==> forall k :: 0 <= k < |rows| ==> rows[k].id != id
  {
    if rows == [] then None
    else if rows[0].id == id then Some(rows[0])
    else
      var o := FindById(rows[1..], id);
      assert forall k :: 1 <= k < |rows| ==> rows[k] == rows[1..][k - 1];
      o
  }

  /** findByReservationDate */
  function FindByReservationDate(rows: seq<TableReservation>, date: Day): (found: seq<TableReservation>)
    ensures forall r :: r in found <==> r in rows && r.reservationDate == date
  {
    Filter(rows, (r: TableReservation) => r.reservationDate == date)
  }

  /** findByReservationDateBetween: both ends inclusive (SQL BETWEEN). */
  function FindByReservationDateBetween(rows: seq<TableReservation>, startDate: Day, endDate: Day)
    : (found: seq<TableReservation>)
    ensures forall r :: r in found <==> r in rows && startDate <= r.reservationDate <= endDate
  {
    Filter(rows, (r: TableReservation) => startDate <= r.reservationDate <= endDate)
  }

  /** The seats of a bucket are the seats of that area among the rows findByReservationDateBetween returns. */
  lemma {:induction false} CountOverDateRange(rows: seq<TableReservation>, area: ReservationArea,
                                              startDate: Day, endDate: Day)
    ensures CountReservedSeatsByAreaAndDate(rows, area, startDate, endDate)
         == CountReservedSeatsByAreaAndDate(FindByReservationDateBetween(rows, startDate, endDate),
                                            area, startDate, endDate)
  {
    if rows != [] {
      CountOverDateRange(rows[1..], area, startDate, endDate);
      var inRange := (r: TableReservation) => startDate <= r.reservationDate <= endDate;
      assert Filter(rows, inRange) == if inRange(rows[0]) then [rows[0]] + Filter(rows[1..], inRange)
                                      else Filter(rows[1..], inRange);
      if inRange(rows[0]) {
        CountConcat([rows[0]], Filter(rows[1..], inRange), area, startDate, endDate);
      }
    }
  }

  ghost predicate UniqueIds(rows: seq<TableReservation>) {
    forall i, j :: 0 <= i < j < |rows| ==> rows[i].id != rows[j].id
  }

  /** In a table with unique ids, findById returns the one row with that id. */
  lemma {:induction false} FindByIdUnique(rows: seq<TableReservation>, k: nat)
    requires UniqueIds(rows) && k < |rows|
    ensures FindById(rows, rows[k].id) == Some(rows[k])
  {
    if k > 0 {
      var rest := rows[1..];
      assert rest[k - 1] == rows[k];
      assert UniqueIds(rest) by {
        forall i, j | 0 <= i < j < |rest| ensures rest[i].id != rest[j].id {
          assert rest[i] == rows[i + 1] && rest[j] == rows[j + 1];
        }
      }
      FindByIdUnique(rest, k - 1);
    }
  }

  /** Deleting row k keeps the other rows, in order, and keeps ids unique. */
  lemma RemoveKeepsUniqueIds(rows: seq<TableReservation>, k: nat)
    requires UniqueIds(rows) && k < |rows|
    ensures var rest := rows[..k] + rows[k + 1..];
      && UniqueIds(rest)
      && forall i :: 0 <= i < |rest| ==> rest[i] == rows[if i < k then i else i + 1]
  {
    var rest := rows[..k] + rows[k + 1..];
    assert forall i :: 0 <= i < |rest| ==> rest[i] == rows[if i < k then i else i + 1];
  }

  /** DELETE ... WHERE id = :id */
  function WithoutId(rows: seq<TableReservation>, id: int): (r: seq<TableReservation>)
    ensures forall x :: x in r <==> x in rows && x.id != id
  {
    Filter(rows, (x: TableReservation) => x.id != id)
  }

  /**
    * In a table with unique ids, deleting an id removes exactly the row that
    * carries it, and nothing when no row does.
    */
  lemma WithoutIdKeepsOthers(rows: seq<TableReservation>, id: int)
    requires UniqueIds(rows)
    ensures UniqueIds(WithoutId(rows, id))
    ensures forall k :: 0 <= k < |rows| && rows[k].id == id ==> WithoutId(rows, id) == rows[..k] + rows[k + 1..]
    ensures FindById(rows, id).None? ==> WithoutId(rows, id) == rows
  {
    var keep := (x: TableReservation) => x.id != id;
    if FindById(rows, id).None? {
      FilterKeepsAll(rows, keep);
    } else {
      var k :| 0 <= k < |rows| && rows[k] == FindById(rows, id).value;
      FilterDropsOnly(rows, keep, k);
      RemoveKeepsUniqueIds(rows, k);
    }
  }

  class TableReservationRepository {
    var rows: seq<TableReservation>
    /** the IDENTITY column's next value */
    var nextId: int

    /** Ids are unique and below the generator; party sizes obey the entity's @Min(1) @Max(20). */
    ghost predicate Valid()
      reads this
    {
      && UniqueIds(rows)
      && (forall k :: 0 <= k < |rows| ==> rows[k].id < nextId)
      && (forall k :: 0 <= k < |rows| ==> 1 <= rows[k].numberOfPeople <= 20)
    }

    constructor ()
      ensures Valid() && rows == []
    {
      rows, nextId := [], 1;
    }

    /** save(r) of a new reservation: the database assigns the id. */
    method Insert(r: TableReservation) returns (saved: TableReservation)
      requires Valid() && 1 <= r.numberOfPeople <= 20
      modifies this
      ensures Valid()
      ensures saved == r.(id := old(nextId))
      ensures rows == old(rows) + [saved] && nextId == old(nextId) + 1
    {
      saved := r.(id := nextId);
      rows := rows + [saved];
      nextId := nextId + 1;
    }

    /** save(r) of a loaded reservation: overwrites the row with r's id. */
    method Update(r: TableReservation)
      requires Valid() && FindById(rows, r.id).Some? && 1 <= r.numberOfPeople <= 20
      modifies this
      ensures Valid() && nextId == old(nextId)
      ensures forall k :: 0 <= k < |old(rows)| && old(rows)[k].id == r.id ==> rows == old(rows)[k := r]
    {
      var k :| 0 <= k < |rows| && rows[k] == FindById(rows, r.id).value;
      assert forall i :: 0 <= i < |rows| ==> rows[k := r][i].id == rows[i].id;
      rows := rows[k := r];
    }

    /** deleteById */
    method DeleteById(id: int)
      requires Valid()
      modifies this
      ensures Valid() && nextId == old(nextId)
      ensures rows == WithoutId(old(rows), id)
    {
      WithoutIdKeepsOthers(rows, id);
      rows := WithoutId(rows, id);
    }
  }
}
