/**
 * The tables controller: the guards of table creation, seating and
 * finishing, and the two separate store writes that seating and finishing
 * perform, first the table row, then the reservation row.
 */
module TablesController {
  import opened Wrappers
  import opened Records
  import opened Strings
  import opened Pipeline
  import opened ReservationsService
  import opened TablesService

  /** The property names of a table request body. */
  datatype TableField = TableName | Capacity | ReservationIdKey | Unknown(name: string)

  /** Every property that is a table column a request may set. */
  const Columns: set<TableField> := {TableName, Capacity, ReservationIdKey}

  /** `req.body.data` of a table request; `unknown` names the other properties. */
  datatype TableBody = TableBody(
    tableName: Option<string>,
    capacity: Option<Json>,
    reservationId: Option<int>,
    unknown: set<string>)

  /** Whether property `f` is present in the body. */
  predicate Present(b: TableBody, f: TableField)
  {
    match f
    case TableName => b.tableName.Some?
    case Capacity => b.capacity.Some?
    case ReservationIdKey => b.reservationId.Some?
    case Unknown(name) => name in b.unknown
  }

  /** `hasProperties(...names)` on a table body. */
  predicate HasProperties(b: TableBody, names: set<TableField>)
  {
    forall f :: f in names ==> Present(b, f)
  }

  /** `hasOnlyValidProperties(...names)` on a table body. */
  predicate HasOnlyValidProperties(b: TableBody, names: set<TableField>)
  {
    && (forall f | f in Columns && Present(b, f) :: f in names)
    && (forall n | n in b.unknown :: Unknown(n) in names)
  }

  // ----- Guards -----

  /** `tableNameLength`: more than one UTF-16 code unit. */
  predicate TableNameLength(name: string)
  {
    Utf16Length(name) > 1
  }

  /** `capacityIsNumber`: Number.isInteger, so 0 and negative capacities pass. */
  predicate CapacityIsNumber(capacity: Json)
  {
    IsInteger(capacity)
  }

  /** `tableCapacity`: the table holds the party. */
  predicate TableCapacity(t: Table, r: Reservation)
  {
    t.capacity >= r.people
  }

  /** `tableStatusFree` */
  predicate TableStatusFree(t: Table)
  {
    t.status == Free
  }

  /** `tableStatusOccupied` */
  predicate TableStatusOccupied(t: Table)
  {
    t.status == Occupied
  }

  // ----- POST /tables -----

  /** The guards of `create`, in route order. */
  function CreateChecks(b: TableBody): seq<Check<ErrorKind>>
  {
    [ Check(HasProperties(b, {TableName, Capacity}), MissingProperty),
      Check(HasOnlyValidProperties(b, {TableName, Capacity, ReservationIdKey}), InvalidProperty),
      Check(TableNameLength(b.tableName.GetOr("")), TableNameTooShort),
      Check(CapacityIsNumber(b.capacity.GetOr(JNull)), InvalidCapacity) ]
  }

  /** The create chain: the first failing guard's error, or the insert to run. */
  function TableAdmission(b: TableBody): Result<NewTable, ErrorKind>
  {
    var checks := CreateChecks(b);
    match FirstFailure(checks)
    case Fail(e) => Failure(e)
    case Pass =>
      PassedAt(checks, 0);
      PassedAt(checks, 3);
      assert Present(b, TableName) && Present(b, Capacity);
      Success(NewTable(None, b.tableName.value, IntegerValue(b.capacity.value), b.reservationId))
  }

  /**
   * A table is admitted exactly when it has a name and a capacity and no
   * other property but reservation_id, the name is longer than one
   * character and the capacity is an integer; the insert carries them as
   * given.
   */
  lemma TableAdmissionAcceptsExactly(b: TableBody)
    ensures TableAdmission(b).Success? <==>
      && b.tableName.Some? && b.capacity.Some? && b.unknown == {}
      && Utf16Length(b.tableName.value) > 1
      && IsInteger(b.capacity.value)
    ensures TableAdmission(b).Success? ==>
      && TableAdmission(b).value.name == b.tableName.value
      && b.capacity == Some(JNumber(TableAdmission(b).value.capacity as real))
      && TableAdmission(b).value.reservationId == b.reservationId
  {
    var checks := CreateChecks(b);
    FirstFailurePasses(checks);
    if b.tableName.Some? && b.capacity.Some? && b.unknown == {} {
      assert checks[0].passed && checks[1].passed;
    }
    if TableAdmission(b).Success? {
      PassedAt(checks, 0);
      PassedAt(checks, 1);
      PassedAt(checks, 2);
      PassedAt(checks, 3);
      assert Present(b, TableName) && Present(b, Capacity);
    }
  }

  /**
   * A name of at most one UTF-16 code unit is refused before the capacity is
   * looked at, whatever the capacity and reservation_id.
   */
  lemma ShortNameBeforeCapacity(b: TableBody)
    requires b.tableName.Some? && b.capacity.Some? && b.unknown == {}
    requires Utf16Length(b.tableName.value) <= 1
    ensures TableAdmission(b) == Failure(TableNameTooShort)
  {
    assert Present(b, TableName) && Present(b, Capacity);
    FirstFailureAt(CreateChecks(b), 2);
  }

  /**
   * Negative capacities pass `capacityIsNumber` and the table is admitted.
   * For a capacity of 0 this holds of the model only: here a present field
   * passes `hasProperties`, whose treatment of a falsy 0 is not modelled.
   */
  lemma NonPositiveCapacityAdmitted(n: int)
    requires n <= 0
    ensures TableAdmission(TableBody(Some("#1"), Some(JNumber(n as real)), None, {})).Success?
  {
    TableAdmissionAcceptsExactly(TableBody(Some("#1"), Some(JNumber(n as real)), None, {}));
  }

  /** `create`: nothing is written unless every guard passes. */
  method CreateTable(store: TableStore, b: TableBody) returns (r: Result<Table, ErrorKind>)
    requires store.Valid()
    modifies store
    ensures store.Valid()
    ensures TableAdmission(b).Failure? ==>
      && r == Failure(TableAdmission(b).error)
      && store.rows == old(store.rows) && store.nextId == old(store.nextId)
    ensures TableAdmission(b).Success? ==> store.nextId == old(store.nextId) + 1
    ensures TableAdmission(b).Success? && old(store.nextId) in old(store.rows) ==>
      r == Failure(DuplicateKey) && store.rows == old(store.rows)
    ensures TableAdmission(b).Success? && old(store.nextId) !in old(store.rows) ==>
      var row := InsertedTable(TableAdmission(b).value, old(store.nextId));
      r == Success(row) && store.rows == old(store.rows)[row.id := row]
  {
    var admitted := TableAdmission(b);
    if admitted.Failure? {
      return Failure(admitted.error);
    }
    r := store.Create(admitted.value);
  }

  // ----- PUT /tables/:table_id/seat and DELETE /tables/:table_id/seat -----

  /** Both tables of the store. */
  datatype Db = Db(tables: map<int, Table>, reservations: map<int, Reservation>)

  /** `reservationExists` loads the reservation the body names. */
  function Loaded(reservations: map<int, Reservation>, b: TableBody): (r: Option<Reservation>)
    ensures r.Some? <==> b.reservationId.Some? && b.reservationId.value in reservations
  {
    if b.reservationId.Some? && b.reservationId.value in reservations
    then Some(reservations[b.reservationId.value])
    else None
  }

  /**
   * The guards of `seat`, in route order. The capacity and free-table
   * guards read what earlier guards loaded; where that is missing they are
   * never reached.
   */
  function SeatChecks(db: Db, tableId: int, b: TableBody): seq<Check<ErrorKind>>
  {
    var r := Loaded(db.reservations, b);
    [ Check(HasProperties(b, {ReservationIdKey}), MissingProperty),
      Check(HasOnlyValidProperties(b, {ReservationIdKey}), InvalidProperty),
      Check(tableId in db.tables, TableNotFound),
      Check(r.Some?, ReservationNotFound),
      Check(r.None? || r.value.status != Seated, ReservationAlreadySeated),
      Check(tableId !in db.tables || r.None? || TableCapacity(db.tables[tableId], r.value), InsufficientCapacity),
      Check(tableId !in db.tables || TableStatusFree(db.tables[tableId]), TableOccupied) ]
  }

  /**
   * The seat chain: the first failing guard's error, or the table row
   * `seat` writes, `{ ...table, table_id, reservation_id, status: "Occupied" }`.
   */
  function Seating(db: Db, tableId: int, b: TableBody): (r: Result<Table, ErrorKind>)
    ensures r.Success? ==>
      && tableId in db.tables && Loaded(db.reservations, b).Some?
      && Loaded(db.reservations, b).value.status != Seated
      && db.tables[tableId].capacity >= Loaded(db.reservations, b).value.people
      && db.tables[tableId].status == Free
      && r.value == db.tables[tableId].(id := tableId,
                                        reservationId := Some(Loaded(db.reservations, b).value.id),
                                        status := Occupied)
  {
    var checks := SeatChecks(db, tableId, b);
    match FirstFailure(checks)
    case Fail(e) => Failure(e)
    case Pass =>
      PassedAt(checks, 2);
      PassedAt(checks, 3);
      PassedAt(checks, 4);
      PassedAt(checks, 5);
      PassedAt(checks, 6);
      Success(db.tables[tableId].(id := tableId,
                                  reservationId := Some(Loaded(db.reservations, b).value.id),
                                  status := Occupied))
  }

  /** The store after `seat`: the table row is written, then the reservation's status becomes "seated". */
  function Seat(db: Db, tableId: int, b: TableBody): Result<Db, ErrorKind>
  {
    match Seating(db, tableId, b)
    case Failure(e) => Failure(e)
    case Success(t) =>
      var rid := t.reservationId.value;
      Success(Db(Written(db.tables, t), Updated(db.reservations, StatusChange(rid, Seated))))
  }

  /** The guards of `finish`, in route order. */
  function FinishChecks(db: Db, tableId: int): seq<Check<ErrorKind>>
  {
    [ Check(tableId in db.tables, TableNotFound),
      Check(tableId !in db.tables || TableStatusOccupied(db.tables[tableId]), TableNotOccupied) ]
  }

  /** The finish chain: the first failing guard's error, or `{ ...table, status: "Free" }`. */
  function Finishing(db: Db, tableId: int): (r: Result<Table, ErrorKind>)
    ensures r.Success? ==> tableId in db.tables && r.value == db.tables[tableId].(status := Free)
  {
    var checks := FinishChecks(db, tableId);
    match FirstFailure(checks)
    case Fail(e) => Failure(e)
    case Pass =>
      PassedAt(checks, 0);
      Success(db.tables[tableId].(status := Free))
  }

  /**
   * The store after `finish`: the table row is written, then the
   * reservation it still names becomes "finished"; a table that names no
   * reservation changes no reservation.
   */
  function Finish(db: Db, tableId: int): Result<Db, ErrorKind>
  {
    match Finishing(db, tableId)
    case Failure(e) => Failure(e)
    case Success(t) =>
      var reservations := match t.reservationId
        case Some(rid) => Updated(db.reservations, StatusChange(rid, Finished))
        case None => db.reservations;
      Success(Db(Written(db.tables, t), reservations))
  }

  /** The seat request's own properties are well formed: exactly reservation_id. */
  predicate SeatBodyOk(b: TableBody)
  {
    b.tableName.None? && b.capacity.None? && b.reservationId.Some? && b.unknown == {}
  }

  lemma SeatBodyChecks(db: Db, tableId: int, b: TableBody)
    requires SeatBodyOk(b)
    ensures SeatChecks(db, tableId, b)[0].passed && SeatChecks(db, tableId, b)[1].passed
  {
    assert Present(b, ReservationIdKey);
  }

  /**
   * Any other body is refused before a lookup: without `reservation_id` as
   * missing, and with any further property as invalid.
   */
  lemma SeatBodyRefused(db: Db, tableId: int, b: TableBody)
    requires !SeatBodyOk(b)
    ensures Seat(db, tableId, b) == Failure(if b.reservationId.None? then MissingProperty else InvalidProperty)
  {
    var checks := SeatChecks(db, tableId, b);
    if b.reservationId.None? {
      assert !Present(b, ReservationIdKey);
      FirstFailureAt(checks, 0);
    } else {
      assert Present(b, ReservationIdKey);
      if b.tableName.Some? {
        assert Present(b, TableName);
      } else if b.capacity.Some? {
        assert Present(b, Capacity);
      } else {
        var n :| n in b.unknown;
      }
      FirstFailureAt(checks, 1);
    }
  }

  /**
   * Seating fails with the capacity error when the party is larger than
   * the table, whether or not the table is free.
   */
  lemma CapacityBeforeOccupancy(db: Db, tableId: int, b: TableBody)
    requires SeatBodyOk(b) && tableId in db.tables
    requires Loaded(db.reservations, b).Some?
    requires Loaded(db.reservations, b).value.status != Seated
    requires db.tables[tableId].capacity < Loaded(db.reservations, b).value.people
    ensures Seat(db, tableId, b) == Failure(InsufficientCapacity)
  {
    SeatBodyChecks(db, tableId, b);
    FirstFailureAt(SeatChecks(db, tableId, b), 5);
  }

  /**
   * For a free table large enough for the party, only a reservation already
   * "seated" is refused: booked, finished and cancelled ones are seated.
   */
  lemma OnlySeatedBlocksSeating(db: Db, tableId: int, b: TableBody)
    requires SeatBodyOk(b) && tableId in db.tables && db.tables[tableId].status == Free
    requires Loaded(db.reservations, b).Some?
    requires db.tables[tableId].capacity >= Loaded(db.reservations, b).value.people
    ensures Seat(db, tableId, b).Success? <==> Loaded(db.reservations, b).value.status != Seated
    ensures Seat(db, tableId, b).Failure? ==> Seat(db, tableId, b).error == ReservationAlreadySeated
  {
    var checks := SeatChecks(db, tableId, b);
    SeatBodyChecks(db, tableId, b);
    if Loaded(db.reservations, b).value.status == Seated {
      FirstFailureAt(checks, 4);
    } else {
      FirstFailurePasses(checks);
      assert AllPass(checks) by {
        forall i | 0 <= i < 7 ensures checks[i].passed {
        }
      }
    }
  }

  /**
   * For a well-formed body, seating succeeds exactly when the table exists,
   * the reservation exists and is not "seated", the table holds the party
   * and the table is "Free".
   */
  lemma SeatAcceptsExactly(db: Db, tableId: int, b: TableBody)
    requires SeatBodyOk(b)
    ensures Seat(db, tableId, b).Success? <==>
      && tableId in db.tables && Loaded(db.reservations, b).Some?
      && Loaded(db.reservations, b).value.status != Seated
      && db.tables[tableId].capacity >= Loaded(db.reservations, b).value.people
      && db.tables[tableId].status == Free
  {
    var checks := SeatChecks(db, tableId, b);
    SeatBodyChecks(db, tableId, b);
    FirstFailurePasses(checks);
    if && tableId in db.tables && Loaded(db.reservations, b).Some?
       && Loaded(db.reservations, b).value.status != Seated
       && db.tables[tableId].capacity >= Loaded(db.reservations, b).value.people
       && db.tables[tableId].status == Free
    {
      assert AllPass(checks) by {
        forall i | 0 <= i < 7 ensures checks[i].passed {
        }
      }
    }
  }

  /** A table that is not "Free" is refused as occupied once every other guard has passed. */
  lemma OccupiedTableRefused(db: Db, tableId: int, b: TableBody)
    requires SeatBodyOk(b) && tableId in db.tables && Loaded(db.reservations, b).Some?
    requires Loaded(db.reservations, b).value.status != Seated
    requires db.tables[tableId].capacity >= Loaded(db.reservations, b).value.people
    requires db.tables[tableId].status != Free
    ensures Seat(db, tableId, b) == Failure(TableOccupied)
  {
    SeatBodyChecks(db, tableId, b);
    FirstFailureAt(SeatChecks(db, tableId, b), 6);
  }

  /**
   * An unknown table is reported before the reservation is looked at, and
   * an unknown reservation before its status, the capacity or the table's
   * status.
   */
  lemma SeatLookupsFirst(db: Db, tableId: int, b: TableBody)
    requires SeatBodyOk(b)
    ensures tableId !in db.tables ==> Seat(db, tableId, b) == Failure(TableNotFound)
    ensures tableId in db.tables && Loaded(db.reservations, b).None? ==>
      Seat(db, tableId, b) == Failure(ReservationNotFound)
  {
    SeatBodyChecks(db, tableId, b);
    if tableId !in db.tables {
      FirstFailureAt(SeatChecks(db, tableId, b), 2);
    } else if Loaded(db.reservations, b).None? {
      FirstFailureAt(SeatChecks(db, tableId, b), 3);
    }
  }

  /**
   * A successful seat marks the table occupied by the reservation and that
   * reservation seated; every other table and reservation, and every other
   * column, is left as it was.
   */
  lemma SeatEffect(db: Db, tableId: int, b: TableBody)
    requires TablesKeyed(db.tables) && ReservationsKeyed(db.reservations)
    requires Seat(db, tableId, b).Success?
    ensures var after := Seat(db, tableId, b).value;
      var rid := b.reservationId.value;
      && after.tables.Keys == db.tables.Keys && after.reservations.Keys == db.reservations.Keys
      && after.tables[tableId] == db.tables[tableId].(reservationId := Some(rid), status := Occupied)
      && after.reservations[rid] == db.reservations[rid].(status := Seated)
      && (forall id :: id in db.tables && id != tableId ==> after.tables[id] == db.tables[id])
      && (forall id :: id in db.reservations && id != rid ==> after.reservations[id] == db.reservations[id])
  {
    var t := Seating(db, tableId, b).value;
    assert t.id == tableId;
  }

  /** Finishing succeeds exactly on an existing occupied table. */
  lemma FinishAcceptsExactly(db: Db, tableId: int)
    ensures Finish(db, tableId).Success? <==> tableId in db.tables && db.tables[tableId].status == Occupied
    ensures tableId !in db.tables ==> Finish(db, tableId) == Failure(TableNotFound)
    ensures tableId in db.tables && db.tables[tableId].status != Occupied ==>
      Finish(db, tableId) == Failure(TableNotOccupied)
  {
    var checks := FinishChecks(db, tableId);
    FirstFailurePasses(checks);
    if tableId !in db.tables {
      FirstFailureAt(checks, 0);
    } else if db.tables[tableId].status != Occupied {
      FirstFailureAt(checks, 1);
    } else {
      assert AllPass(checks) by {
        forall i | 0 <= i < 2 ensures checks[i].passed {
        }
      }
    }
  }

  /**
   * A successful finish frees the table and keeps its reservation_id, and
   * marks that reservation finished; nothing else changes.
   */
  lemma FinishEffect(db: Db, tableId: int)
    requires TablesKeyed(db.tables) && ReservationsKeyed(db.reservations)
    requires Finish(db, tableId).Success?
    ensures var after := Finish(db, tableId).value;
      && after.tables.Keys == db.tables.Keys && after.reservations.Keys == db.reservations.Keys
      && after.tables[tableId] == db.tables[tableId].(status := Free)
      && after.tables[tableId].reservationId == db.tables[tableId].reservationId
      && (forall id :: id in db.tables && id != tableId ==> after.tables[id] == db.tables[id])
      && (forall id :: id in db.reservations && Some(id) != db.tables[tableId].reservationId ==>
            after.reservations[id] == db.reservations[id])
      && (db.tables[tableId].reservationId.None? ==> after.reservations == db.reservations)
      && (db.tables[tableId].reservationId.Some? ==>
            var rid := db.tables[tableId].reservationId.value;
            && (rid in db.reservations ==> after.reservations[rid] == db.reservations[rid].(status := Finished))
            && (rid !in db.reservations ==> after.reservations == db.reservations))
  {
    var t := Finishing(db, tableId).value;
    assert t.id == tableId;
  }

  /**
   * Seating a reservation and then finishing the table leaves the table
   * free again with its name and capacity, still naming the reservation,
   * and the reservation finished.
   */
  lemma SeatThenFinish(db: Db, tableId: int, b: TableBody)
    requires TablesKeyed(db.tables) && ReservationsKeyed(db.reservations)
    requires Seat(db, tableId, b).Success?
    ensures var seated := Seat(db, tableId, b).value;
      var rid := b.reservationId.value;
      && Finish(seated, tableId).Success?
      && Finish(seated, tableId).value.tables ==
           db.tables[tableId := db.tables[tableId].(reservationId := Some(rid))]
      && Finish(seated, tableId).value.reservations ==
           db.reservations[rid := db.reservations[rid].(status := Finished)]
  {
    var seated := Seat(db, tableId, b).value;
    var rid := b.reservationId.value;
    SeatEffect(db, tableId, b);
    assert TablesKeyed(seated.tables) && ReservationsKeyed(seated.reservations);
    FinishAcceptsExactly(seated, tableId);
    FinishEffect(seated, tableId);
    var t := Seating(db, tableId, b).value;
    assert db.tables[tableId].status == Free by {
      PassedAt(SeatChecks(db, tableId, b), 6);
    }
    var finished := Finish(seated, tableId).value;
    assert finished.tables == db.tables[tableId := db.tables[tableId].(reservationId := Some(rid))];
    assert finished.reservations == db.reservations[rid := db.reservations[rid].(status := Finished)];
  }

  /**
   * The seating invariant: every occupied table names an existing
   * reservation whose status is "seated", and no two occupied tables name
   * the same reservation.
   */
  ghost predicate SeatingConsistent(db: Db)
  {
    && TablesKeyed(db.tables) && ReservationsKeyed(db.reservations)
    && (forall id :: id in db.tables && db.tables[id].status == Occupied ==>
          && db.tables[id].reservationId.Some?
          && db.tables[id].reservationId.value in db.reservations
          && db.reservations[db.tables[id].reservationId.value].status == Seated)
    && (forall i, j ::
          (i in db.tables && j in db.tables && i != j &&
           db.tables[i].status == Occupied && db.tables[j].status == Occupied) ==>
          db.tables[i].reservationId != db.tables[j].reservationId)
  }

  /** Seating keeps the invariant: the reservation seated was not seated, so no occupied table named it. */
  lemma {:induction false} SeatKeepsConsistency(db: Db, tableId: int, b: TableBody)
    requires SeatingConsistent(db)
    requires Seat(db, tableId, b).Success?
    ensures SeatingConsistent(Seat(db, tableId, b).value)
  {
    var after := Seat(db, tableId, b).value;
    var rid := b.reservationId.value;
    SeatEffect(db, tableId, b);
    var checks := SeatChecks(db, tableId, b);
    PassedAt(checks, 4);
    PassedAt(checks, 6);
    assert db.reservations[rid].status != Seated;
    forall id | id in after.tables && after.tables[id].status == Occupied
      ensures after.tables[id].reservationId.Some?
      ensures after.tables[id].reservationId.value in after.reservations
      ensures after.reservations[after.tables[id].reservationId.value].status == Seated
    {
      if id != tableId {
        assert db.tables[id].status == Occupied;
        assert db.tables[id].reservationId != Some(rid);
      }
    }
  }

  /** Finishing keeps the invariant: the freed table was the only one naming its reservation. */
  lemma {:induction false} FinishKeepsConsistency(db: Db, tableId: int)
    requires SeatingConsistent(db)
    requires Finish(db, tableId).Success?
    ensures SeatingConsistent(Finish(db, tableId).value)
  {
    var after := Finish(db, tableId).value;
    FinishAcceptsExactly(db, tableId);
    FinishEffect(db, tableId);
    var rid := db.tables[tableId].reservationId.value;
    forall id | id in after.tables && after.tables[id].status == Occupied
      ensures after.tables[id].reservationId.Some?
      ensures after.tables[id].reservationId.value in after.reservations
      ensures after.reservations[after.tables[id].reservationId.value].status == Seated
    {
      assert id != tableId;
      assert db.tables[id].status == Occupied;
      assert db.tables[id].reservationId != Some(rid);
    }
  }

  /** `seat`: writes the table row, then sets the reservation's status. */
  method SeatTable(tables: TableStore, reservations: ReservationTable, tableId: int, b: TableBody)
    returns (r: Result<Table, ErrorKind>)
    requires tables.Valid() && reservations.Valid()
    modifies tables`rows, reservations`rows
    ensures tables.Valid() && reservations.Valid()
    ensures r == Seating(Db(old(tables.rows), old(reservations.rows)), tableId, b)
    ensures match Seat(Db(old(tables.rows), old(reservations.rows)), tableId, b)
      case Success(after) => tables.rows == after.tables && reservations.rows == after.reservations
      case Failure(_) => tables.rows == old(tables.rows) && reservations.rows == old(reservations.rows)
  {
    var seating := Seating(Db(tables.rows, reservations.rows), tableId, b);
    if seating.Failure? {
      return seating;
    }
    var t := seating.value;
    var written := tables.Seat(t);
    var updated := reservations.Update(StatusChange(t.reservationId.value, Seated));
    r := Success(written.value);
  }

  /** `finish`: writes the table row, then sets the status of the reservation it names. */
  method FinishTable(tables: TableStore, reservations: ReservationTable, tableId: int)
    returns (r: Result<Table, ErrorKind>)
    requires tables.Valid() && reservations.Valid()
    modifies tables`rows, reservations`rows
    ensures tables.Valid() && reservations.Valid()
    ensures r == Finishing(Db(old(tables.rows), old(reservations.rows)), tableId)
    ensures match Finish(Db(old(tables.rows), old(reservations.rows)), tableId)
      case Success(after) => tables.rows == after.tables && reservations.rows == after.reservations
      case Failure(_) => tables.rows == old(tables.rows) && reservations.rows == old(reservations.rows)
  {
    var finishing := Finishing(Db(tables.rows, reservations.rows), tableId);
    if finishing.Failure? {
      return finishing;
    }
    var t := finishing.value;
    var written := tables.Finish(t);
    if t.reservationId.Some? {
      var updated := reservations.Update(StatusChange(t.reservationId.value, Finished));
    }
    r := Success(written.value);
  }
}
