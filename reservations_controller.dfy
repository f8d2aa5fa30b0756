/**
 * The reservations controller: the guards each request passes through, the
 * order the routes chain them in, and the store writes of the handlers.
 * The future-date guard compares against the clock in the server's time
 * zone; it enters as the boolean `inFuture`, its verdict.
 */
module ReservationsController {
  import opened Wrappers
  import opened Records
  import opened Strings
  import opened JsParse
  import opened Calendar
  import opened Pipeline
  import opened ReservationsService

  /** The property names of a reservation request body. */
  datatype Field =
    | FirstName | LastName | MobileNumber | ReservationDate | ReservationTime | People
    | Status | ReservationId | CreatedAt | UpdatedAt
    | Unknown(name: string)

  const RequiredProperties: set<Field> :=
    {FirstName, LastName, MobileNumber, ReservationDate, ReservationTime, People}

  const ValidProperties: set<Field> :=
    RequiredProperties + {Status, ReservationId, CreatedAt, UpdatedAt}

  /**
   * `req.body.data` of a reservation request. A property that is absent is
   * None; `unknown` names the properties that are not reservation columns.
   * A column name in `unknown` describes no JSON body; no lemma here relies
   * on it being absent, and such a name counts as an unknown property.
   */
  datatype ReservationBody = ReservationBody(
    firstName: Option<string>,
    lastName: Option<string>,
    mobileNumber: Option<string>,
    date: Option<string>,
    time: Option<string>,
    people: Option<Json>,
    status: Option<string>,
    id: Option<int>,
    createdAt: Option<string>,
    updatedAt: Option<string>,
    unknown: set<string>)

  /** Whether property `f` is present in the body. */
  predicate Present(b: ReservationBody, f: Field)
  {
    match f
    case FirstName => b.firstName.Some?
    case LastName => b.lastName.Some?
    case MobileNumber => b.mobileNumber.Some?
    case ReservationDate => b.date.Some?
    case ReservationTime => b.time.Some?
    case People => b.people.Some?
    case Status => b.status.Some?
    case ReservationId => b.id.Some?
    case CreatedAt => b.createdAt.Some?
    case UpdatedAt => b.updatedAt.Some?
    case Unknown(name) => name in b.unknown
  }

  /** `hasProperties(...names)`: every one of `names` is present. */
  predicate HasProperties(b: ReservationBody, names: set<Field>)
  {
    forall f :: f in names ==> Present(b, f)
  }

  /** `hasOnlyValidProperties(...names)`: nothing outside `names` is present. */
  predicate HasOnlyValidProperties(b: ReservationBody, names: set<Field>)
  {
    && (forall f | f in ValidProperties && Present(b, f) :: f in names)
    && (forall n | n in b.unknown :: Unknown(n) in names)
  }

  /** A body has the required properties exactly when it carries each of the six. */
  lemma RequiredPresent(b: ReservationBody)
    ensures HasProperties(b, RequiredProperties) <==>
      && b.firstName.Some? && b.lastName.Some? && b.mobileNumber.Some?
      && b.date.Some? && b.time.Some? && b.people.Some?
  {
    if b.firstName.Some? && b.lastName.Some? && b.mobileNumber.Some? && b.date.Some? && b.time.Some? && b.people.Some? {
      forall f | f in RequiredProperties ensures Present(b, f) {
        assert f in {FirstName, LastName, MobileNumber, ReservationDate, ReservationTime, People};
      }
    }
    if HasProperties(b, RequiredProperties) {
      assert Present(b, FirstName) && Present(b, LastName) && Present(b, MobileNumber);
      assert Present(b, ReservationDate) && Present(b, ReservationTime) && Present(b, People);
    }
  }

  /** A body has only valid properties exactly when it has no property outside the reservation columns. */
  lemma ValidPropertiesOnly(b: ReservationBody)
    ensures HasOnlyValidProperties(b, ValidProperties) <==> b.unknown == {}
  {
    if b.unknown != {} {
      var n :| n in b.unknown;
      assert Unknown(n) !in ValidProperties;
    }
  }

  // ----- Guards -----

  /**
   * `validDate`: the shape YYYY-MM-DD, and a month and day the date parser
   * accepts. A day past the month's end (02-30) is accepted and rolls over
   * into the next month.
   */
  predicate ValidDate(s: string)
  {
    DateShape(s) && 1 <= Month(s) <= 12 && 1 <= Day(s) <= 31
  }

  /** `:[0-5][0-9]` starting at index `j`. */
  predicate MinutesAt(s: string, j: nat)
  {
    j + 3 <= |s| && s[j] == ':' && '0' <= s[j + 1] <= '5' && IsDigit(s[j + 2])
  }

  /** `([01]?[0-9]|2[0-3]):[0-5][0-9]` matches starting at index `i`, by one of its three alternatives. */
  predicate TimePatternAt(s: string, i: nat)
  {
    || (i < |s| && IsDigit(s[i]) && MinutesAt(s, i + 1))
    || (i + 1 < |s| && (s[i] == '0' || s[i] == '1') && IsDigit(s[i + 1]) && MinutesAt(s, i + 2))
    || (i + 1 < |s| && s[i] == '2' && '0' <= s[i + 1] <= '3' && MinutesAt(s, i + 2))
  }

  /**
   * `validTime`: the pattern is not anchored, so the search tries every
   * start position from the left and a match anywhere is enough.
   */
  predicate ValidTime(s: string)
  {
    MatchFrom(s, 0)
  }

  /** The pattern matches at some start position `i` or later. */
  predicate MatchFrom(s: string, i: nat)
    decreases |s| - i
  {
    i < |s| && (TimePatternAt(s, i) || MatchFrom(s, i + 1))
  }

  /** A digit, a colon, a digit 0-5 and a digit, at index `k`. */
  predicate DigitColonMinutesAt(s: string, k: nat)
  {
    k < |s| && IsDigit(s[k]) && MinutesAt(s, k + 1)
  }

  lemma {:induction false} MatchFromIff(s: string, i: nat)
    ensures MatchFrom(s, i) <==> exists k: nat :: i <= k && DigitColonMinutesAt(s, k)
    decreases |s| - i
  {
    if i < |s| {
      MatchFromIff(s, i + 1);
      if TimePatternAt(s, i) {
        if IsDigit(s[i]) && MinutesAt(s, i + 1) {
          assert DigitColonMinutesAt(s, i);
        } else {
          assert DigitColonMinutesAt(s, i + 1);
        }
      }
      if exists k: nat :: i <= k && DigitColonMinutesAt(s, k) {
        var k: nat :| i <= k && DigitColonMinutesAt(s, k);
        if k == i {
          assert TimePatternAt(s, i);
        } else {
          assert i + 1 <= k;
        }
      }
    }
  }

  /**
   * validTime accepts exactly the strings that contain a digit, a colon, a
   * digit 0-5 and a digit in a row: the hour alternatives add nothing.
   */
  lemma ValidTimeIff(s: string)
    ensures ValidTime(s) <==> exists k: nat :: DigitColonMinutesAt(s, k)
  {
    MatchFromIff(s, 0);
  }

  /** Hours past 23 and text around the time pass; minutes past 59 do not. */
  lemma ValidTimeExamples()
    ensures ValidTime("25:30") && ValidTime("x99:59y") && !ValidTime("10:75")
  {
    ValidTimeIff("25:30");
    assert DigitColonMinutesAt("25:30", 1);
    ValidTimeIff("x99:59y");
    assert DigitColonMinutesAt("x99:59y", 2);
    ValidTimeIff("10:75");
    forall k: nat ensures !DigitColonMinutesAt("10:75", k) {
      if k == 1 { assert "10:75"[3] == '7'; }
    }
  }

  /** `peopleIsNumber` */
  predicate PeopleIsNumber(people: Json)
  {
    IsInteger(people)
  }

  /** Every integer party size passes, zero and negatives included; fractions and numeric strings do not. */
  lemma PeopleIsNumberExamples(n: int)
    ensures PeopleIsNumber(JNumber(n as real))
    ensures !PeopleIsNumber(JNumber(2.5)) && !PeopleIsNumber(JString("2"))
  {
    IntegersAreIntegers(n);
  }

  /** `duringOperatingHours`: drop the first colon, parseInt, and accept 1030 to 2130 inclusive. */
  predicate DuringOperatingHours(time: string)
  {
    match ParseInt(RemoveFirst(time, ':'))
    case Some(n) => 1030 <= n <= 2130
    case None => false
  }

  /** On an HH:MM time, duringOperatingHours accepts exactly 10:30 through 21:30. */
  lemma OperatingHoursOfClockTime(t: string)
    requires |t| == 5 && IsDigit(t[0]) && IsDigit(t[1]) && t[2] == ':' && IsDigit(t[3]) && IsDigit(t[4])
    ensures var hours := 10 * DigitValue(t[0]) + DigitValue(t[1]);
      var minutes := 10 * DigitValue(t[3]) + DigitValue(t[4]);
      DuringOperatingHours(t) <==> 1030 <= 100 * hours + minutes <= 2130
  {
    assert ':' !in t[..2];
    RemoveFirstAt(t, ':', 2);
    var u := t[..2] + t[3..];
    assert u == [t[0], t[1], t[3], t[4]];
    ParseIntFourDigits(u);
  }

  lemma OperatingHoursBoundaries()
    ensures DuringOperatingHours("10:30") && DuringOperatingHours("21:30")
    ensures !DuringOperatingHours("10:29") && !DuringOperatingHours("21:31")
  {
    OperatingHoursOfClockTime("10:30");
    OperatingHoursOfClockTime("21:30");
    OperatingHoursOfClockTime("10:29");
    OperatingHoursOfClockTime("21:31");
  }

  /**
   * `notTuesday`: the UTC weekday of the date, Sunday = 0, is not 2. A date
   * the parser rejects has no weekday and passes.
   */
  predicate NotTuesday(date: string)
  {
    !(ValidDate(date) && UtcWeekday(date) == 2)
  }

  /** `bookedStatus`: an absent or empty status, or "booked". */
  predicate BookedStatus(status: Option<string>)
  {
    status.None? || status.value == "" || status.value == Booked
  }

  /** `validStatus`: one of the four statuses. */
  predicate ValidStatus(status: Option<string>)
  {
    status.Some? && status.value in {Booked, Seated, Finished, Cancelled}
  }

  /** `statusNotFinished`: only "finished" freezes a reservation. */
  predicate StatusNotFinished(r: Reservation)
  {
    r.status != Finished
  }

  function DateOf(b: ReservationBody): string { b.date.GetOr("") }
  function TimeOf(b: ReservationBody): string { b.time.GetOr("") }
  function PeopleOf(b: ReservationBody): Json { b.people.GetOr(JNull) }

  // ----- POST /reservations -----

  /** The guards of `create`, in route order. */
  function CreateChecks(b: ReservationBody, inFuture: bool): seq<Check<ErrorKind>>
  {
    [ Check(HasProperties(b, RequiredProperties), MissingProperty),
      Check(HasOnlyValidProperties(b, ValidProperties), InvalidProperty),
      Check(ValidDate(DateOf(b)), InvalidDate),
      Check(ValidTime(TimeOf(b)), InvalidTime),
      Check(PeopleIsNumber(PeopleOf(b)), InvalidPeople),
      Check(NotTuesday(DateOf(b)), ClosedOnTuesday),
      Check(inFuture, NotInFuture),
      Check(DuringOperatingHours(TimeOf(b)), OutsideOperatingHours),
      Check(BookedStatus(b.status), InvalidInitialStatus) ]
  }

  /** The insert `create` hands to the store: the body as it is. */
  function NewRow(b: ReservationBody): NewReservation
    requires HasProperties(b, RequiredProperties) && PeopleIsNumber(PeopleOf(b))
  {
    RequiredPresent(b);
    NewReservation(b.id, b.firstName.value, b.lastName.value, b.mobileNumber.value,
                   b.date.value, b.time.value, IntegerValue(b.people.value),
                   b.status, b.createdAt, b.updatedAt)
  }

  /** The create chain: the first failing guard's error, or the insert to run. */
  function Admission(b: ReservationBody, inFuture: bool): Result<NewReservation, ErrorKind>
  {
    var checks := CreateChecks(b, inFuture);
    match FirstFailure(checks)
    case Fail(e) => Failure(e)
    case Pass =>
      FirstFailurePasses(checks);
      assert checks[0].passed && checks[4].passed;
      Success(NewRow(b))
  }

  /** Admission succeeds exactly when all nine guards pass. */
  lemma AdmissionAcceptsExactly(b: ReservationBody, inFuture: bool)
    ensures Admission(b, inFuture).Success? <==>
      && HasProperties(b, RequiredProperties)
      && HasOnlyValidProperties(b, ValidProperties)
      && ValidDate(DateOf(b))
      && ValidTime(TimeOf(b))
      && PeopleIsNumber(PeopleOf(b))
      && NotTuesday(DateOf(b))
      && inFuture
      && DuringOperatingHours(TimeOf(b))
      && BookedStatus(b.status)
  {
    var checks := CreateChecks(b, inFuture);
    FirstFailurePasses(checks);
    AllPassNine(checks);
  }

  /** A refused admission names the first guard, in route order, that fails. */
  lemma AdmissionReportsFirstFailure(b: ReservationBody, inFuture: bool, k: int)
    requires FailsFirstAt(CreateChecks(b, inFuture), k)
    ensures Admission(b, inFuture) == Failure(CreateChecks(b, inFuture)[k].error)
  {
    FirstFailureAt(CreateChecks(b, inFuture), k);
  }

  /** The guards before notTuesday pass on a well-formed body. */
  lemma CreateFieldChecksPass(b: ReservationBody, inFuture: bool)
    requires HasProperties(b, RequiredProperties) && HasOnlyValidProperties(b, ValidProperties)
    requires ValidDate(DateOf(b)) && ValidTime(TimeOf(b)) && PeopleIsNumber(PeopleOf(b))
    ensures forall i :: 0 <= i < 5 ==> CreateChecks(b, inFuture)[i].passed
  {
    var checks := CreateChecks(b, inFuture);
    assert checks[0].passed && checks[1].passed && checks[2].passed;
    assert checks[3].passed && checks[4].passed;
  }

  /**
   * A well-formed body dated on a Tuesday is refused as closed, whether or
   * not it is in the future or within opening hours.
   */
  lemma TuesdayBeatsFutureAndHours(b: ReservationBody, inFuture: bool)
    requires HasProperties(b, RequiredProperties) && HasOnlyValidProperties(b, ValidProperties)
    requires ValidDate(DateOf(b)) && ValidTime(TimeOf(b)) && PeopleIsNumber(PeopleOf(b))
    requires !NotTuesday(DateOf(b))
    ensures Admission(b, inFuture) == Failure(ClosedOnTuesday)
  {
    CreateFieldChecksPass(b, inFuture);
    FirstFailureAt(CreateChecks(b, inFuture), 5);
  }

  /** An admitted reservation is stored with status "booked", or "" exactly when the body's status is "". */
  lemma AdmittedStatus(b: ReservationBody, inFuture: bool, id: int, now: string)
    requires Admission(b, inFuture).Success?
    ensures Inserted(Admission(b, inFuture).value, id, now).status == if b.status == Some("") then "" else Booked
  {
    AdmissionAcceptsExactly(b, inFuture);
  }

  /** `create`: nothing is written unless every guard passes. */
  method CreateReservation(store: ReservationTable, b: ReservationBody, inFuture: bool, now: string)
    returns (r: Result<Reservation, ErrorKind>)
    requires store.Valid()
    modifies store
    ensures store.Valid()
    ensures Admission(b, inFuture).Failure? ==>
      && r == Failure(Admission(b, inFuture).error)
      && store.rows == old(store.rows) && store.nextId == old(store.nextId)
    ensures Admission(b, inFuture).Success? ==>
      var n := Admission(b, inFuture).value;
      var id := n.id.GetOr(old(store.nextId));
      if id in old(store.rows) then r == Failure(DuplicateKey) && store.rows == old(store.rows)
      else r == Success(Inserted(n, id, now)) && store.rows == old(store.rows)[id := Inserted(n, id, now)]
    ensures Admission(b, inFuture).Success? ==>
      store.nextId == if Admission(b, inFuture).value.id.None? then old(store.nextId) + 1 else old(store.nextId)
  {
    var admitted := Admission(b, inFuture);
    if admitted.Failure? {
      return Failure(admitted.error);
    }
    r := store.Create(admitted.value, now);
  }

  // ----- GET /reservations/:reservationId -----

  /** `reservationExists` then `read`: the stored row, or not found. */
  function ReadReservation(store: ReservationTable, id: int): (r: Result<Reservation, ErrorKind>)
    reads store
    requires store.Valid()
    ensures r.Success? <==> id in store.rows
    ensures r.Success? ==> r.value.id == id && r.value == store.rows[id]
    ensures r.Failure? ==> r.error == ReservationNotFound
  {
    match store.Read(id)
    case Some(row) => Success(row)
    case None => Failure(ReservationNotFound)
  }

  // ----- PUT /reservations/:reservationId/status -----

  /** The guards of `updateStatus`, in route order. */
  function StatusChecks(rows: map<int, Reservation>, id: int, b: ReservationBody): seq<Check<ErrorKind>>
  {
    [ Check(HasProperties(b, {Status}), MissingProperty),
      Check(HasOnlyValidProperties(b, {Status}), InvalidProperty),
      Check(id in rows, ReservationNotFound),
      Check(ValidStatus(b.status), InvalidStatus),
      Check(id !in rows || StatusNotFinished(rows[id]), ReservationFinished) ]
  }

  /** The status chain: the first failing guard's error, or `{ ...reservation, status }`. */
  function StatusUpdate(rows: map<int, Reservation>, id: int, b: ReservationBody): Result<Reservation, ErrorKind>
  {
    var checks := StatusChecks(rows, id, b);
    match FirstFailure(checks)
    case Fail(e) => Failure(e)
    case Pass =>
      FirstFailurePasses(checks);
      assert checks[2].passed && checks[3].passed;
      Success(rows[id].(status := b.status.value))
  }

  /** An unknown id is reported before the status is even looked at. */
  lemma StatusUpdateNotFoundFirst(rows: map<int, Reservation>, id: int, b: ReservationBody)
    requires HasProperties(b, {Status}) && HasOnlyValidProperties(b, {Status}) && id !in rows
    ensures StatusUpdate(rows, id, b) == Failure(ReservationNotFound)
  {
    FirstFailureAt(StatusChecks(rows, id, b), 2);
  }

  /** An unknown status is reported before the stored status is looked at. */
  lemma StatusUpdateInvalidBeforeFinished(rows: map<int, Reservation>, id: int, b: ReservationBody)
    requires HasProperties(b, {Status}) && HasOnlyValidProperties(b, {Status}) && id in rows && !ValidStatus(b.status)
    ensures StatusUpdate(rows, id, b) == Failure(InvalidStatus)
  {
    FirstFailureAt(StatusChecks(rows, id, b), 3);
  }

  /**
   * For a known reservation and one of the four statuses, only a stored
   * "finished" blocks the update (so "cancelled" is not terminal), and the
   * update replaces the status and nothing else.
   */
  lemma OnlyFinishedBlocksStatusUpdate(rows: map<int, Reservation>, id: int, b: ReservationBody)
    requires HasProperties(b, {Status}) && HasOnlyValidProperties(b, {Status}) && id in rows && ValidStatus(b.status)
    ensures StatusUpdate(rows, id, b).Success? <==> rows[id].status != Finished
    ensures StatusUpdate(rows, id, b).Failure? ==> StatusUpdate(rows, id, b).error == ReservationFinished
    ensures StatusUpdate(rows, id, b).Success? ==>
      StatusUpdate(rows, id, b).value == rows[id].(status := b.status.value)
  {
    var checks := StatusChecks(rows, id, b);
    FirstFailurePasses(checks);
    if rows[id].status == Finished {
      FirstFailureAt(checks, 4);
    }
  }

  /** `updateStatus`: the merged record is written back under its own id. */
  method UpdateReservationStatus(store: ReservationTable, id: int, b: ReservationBody)
    returns (r: Result<Reservation, ErrorKind>)
    requires store.Valid()
    modifies store
    ensures store.Valid() && store.nextId == old(store.nextId)
    ensures r == StatusUpdate(old(store.rows), id, b)
    ensures store.rows == if r.Success? then old(store.rows)[id := r.value] else old(store.rows)
  {
    var outcome := StatusUpdate(store.rows, id, b);
    if outcome.Failure? {
      return outcome;
    }
    FirstFailurePasses(StatusChecks(store.rows, id, b));
    assert StatusChecks(store.rows, id, b)[2].passed;
    var updated := store.Update(WholeRow(outcome.value));
    r := Success(updated.value);
  }

  // ----- PUT /reservations/:reservationId -----

  /** `{ ...reservation, ...data }`: every property of the body replaces the stored value. */
  function Merge(r: Reservation, b: ReservationBody): Reservation
    requires b.people.Some? ==> IsInteger(b.people.value)
  {
    Reservation(b.id.GetOr(r.id), b.firstName.GetOr(r.firstName), b.lastName.GetOr(r.lastName),
                b.mobileNumber.GetOr(r.mobileNumber), b.date.GetOr(r.date), b.time.GetOr(r.time),
                if b.people.Some? then IntegerValue(b.people.value) else r.people,
                b.status.GetOr(r.status), b.createdAt.GetOr(r.createdAt), b.updatedAt.GetOr(r.updatedAt))
  }

  /** The guards of `updateReservation`, in route order: the finished check comes last. */
  function EditChecks(rows: map<int, Reservation>, id: int, b: ReservationBody, inFuture: bool): seq<Check<ErrorKind>>
  {
    [ Check(HasProperties(b, RequiredProperties), MissingProperty),
      Check(HasOnlyValidProperties(b, ValidProperties), InvalidProperty),
      Check(id in rows, ReservationNotFound),
      Check(ValidDate(DateOf(b)), InvalidDate),
      Check(ValidTime(TimeOf(b)), InvalidTime),
      Check(PeopleIsNumber(PeopleOf(b)), InvalidPeople),
      Check(NotTuesday(DateOf(b)), ClosedOnTuesday),
      Check(inFuture, NotInFuture),
      Check(DuringOperatingHours(TimeOf(b)), OutsideOperatingHours),
      Check(id !in rows || StatusNotFinished(rows[id]), ReservationFinished) ]
  }

  /** The edit chain: the first failing guard's error, or the merged record. */
  function Edit(rows: map<int, Reservation>, id: int, b: ReservationBody, inFuture: bool): Result<Reservation, ErrorKind>
  {
    var checks := EditChecks(rows, id, b, inFuture);
    match FirstFailure(checks)
    case Fail(e) => Failure(e)
    case Pass =>
      FirstFailurePasses(checks);
      assert checks[0].passed && checks[2].passed && checks[5].passed;
      RequiredPresent(b);
      Success(Merge(rows[id], b))
  }

  /**
   * A finished reservation is reported only once every property check has
   * passed: a bad field of a finished reservation is reported as that field.
   */
  lemma EditReportsFinishedLast(rows: map<int, Reservation>, id: int, b: ReservationBody, inFuture: bool)
    requires Edit(rows, id, b, inFuture) == Failure(ReservationFinished)
    ensures HasProperties(b, RequiredProperties) && HasOnlyValidProperties(b, ValidProperties)
    ensures id in rows && rows[id].status == Finished
    ensures ValidDate(DateOf(b)) && ValidTime(TimeOf(b)) && PeopleIsNumber(PeopleOf(b))
    ensures NotTuesday(DateOf(b)) && inFuture && DuringOperatingHours(TimeOf(b))
  {
    var checks := EditChecks(rows, id, b, inFuture);
    FirstFailureIsFirst(checks);
    var k :| FailsFirstAt(checks, k) && checks[k].error == ReservationFinished;
    assert k == 9;
    assert checks[0].passed && checks[1].passed && checks[2].passed;
    assert checks[3].passed && checks[4].passed && checks[5].passed;
    assert checks[6].passed && checks[7].passed && checks[8].passed;
  }

  /** A successful edit is the stored record merged with the body. */
  lemma EditMerges(rows: map<int, Reservation>, id: int, b: ReservationBody, inFuture: bool)
    requires Edit(rows, id, b, inFuture).Success?
    ensures id in rows && rows[id].status != Finished
    ensures b.firstName.Some? && b.lastName.Some? && b.mobileNumber.Some?
    ensures b.date.Some? && b.time.Some? && b.people.Some? && IsInteger(b.people.value)
    ensures Edit(rows, id, b, inFuture).value == Merge(rows[id], b)
  {
    var checks := EditChecks(rows, id, b, inFuture);
    PassedAt(checks, 0);
    PassedAt(checks, 2);
    PassedAt(checks, 5);
    PassedAt(checks, 9);
    RequiredPresent(b);
  }

  /**
   * A successful edit takes every property the body gives, status and
   * reservation_id included, and keeps the stored value of the rest.
   */
  lemma EditTakesBodyFields(rows: map<int, Reservation>, id: int, b: ReservationBody, inFuture: bool)
    requires Edit(rows, id, b, inFuture).Success?
    ensures var m := Edit(rows, id, b, inFuture).value;
      && id in rows && rows[id].status != Finished
      && m.id == b.id.GetOr(rows[id].id)
      && m.status == b.status.GetOr(rows[id].status)
      && b.firstName == Some(m.firstName) && b.lastName == Some(m.lastName)
      && b.mobileNumber == Some(m.mobileNumber)
      && b.date == Some(m.date) && b.time == Some(m.time)
      && b.people == Some(JNumber(m.people as real))
      && m.createdAt == b.createdAt.GetOr(rows[id].createdAt)
      && m.updatedAt == b.updatedAt.GetOr(rows[id].updatedAt)
  {
    EditMerges(rows, id, b, inFuture);
  }

  /**
   * `updateReservation`: the merged record is written to the row whose id is
   * the merged record's, which is the body's reservation_id when it has one.
   */
  method UpdateReservation(store: ReservationTable, id: int, b: ReservationBody, inFuture: bool)
    returns (r: Result<Option<Reservation>, ErrorKind>)
    requires store.Valid()
    modifies store
    ensures store.Valid() && store.nextId == old(store.nextId)
    ensures match Edit(old(store.rows), id, b, inFuture)
      case Failure(e) => r == Failure(e) && store.rows == old(store.rows)
      case Success(m) =>
        if m.id in old(store.rows) then r == Success(Some(m)) && store.rows == old(store.rows)[m.id := m]
        else r == Success(None) && store.rows == old(store.rows)
  {
    var outcome := Edit(store.rows, id, b, inFuture);
    if outcome.Failure? {
      return Failure(outcome.error);
    }
    var updated := store.Update(WholeRow(outcome.value));
    r := Success(updated);
  }

  // ----- GET /reservations?date=...|mobile_number=... -----

  /** What the list route sends: data, an error, or, with neither query, no response at all. */
  datatype Reply = Data(reservations: seq<Reservation>) | Error(kind: ErrorKind) | NoReply

  /** A query parameter JavaScript treats as true: present and not empty. */
  predicate Truthy(q: Option<string>)
  {
    q.Some? && q.value != ""
  }

  /**
   * `searchByDateOrPhone`: a date wins over a phone number; an empty date
   * listing is an error, an empty phone search is not.
   */
  method Search(store: ReservationTable, date: Option<string>, mobileNumber: Option<string>) returns (reply: Reply)
    ensures Truthy(date) ==>
      if exists r :: r in store.rows.Values && IsPending(r, date.value)
      then reply.Data? && IsDateListing(store.rows, date.value, reply.reservations)
      else reply == Error(NoPendingReservations)
    ensures !Truthy(date) && Truthy(mobileNumber) ==>
      reply.Data? && IsPhoneListing(store.rows, mobileNumber.value, reply.reservations)
    ensures !Truthy(date) && !Truthy(mobileNumber) ==> reply == NoReply
  {
    if Truthy(date) {
      var found := store.List(date.value);
      if |found| > 0 {
        assert found[0] in found;
        reply := Data(found);
      } else {
        reply := Error(NoPendingReservations);
      }
    } else if Truthy(mobileNumber) {
      var found := store.Find(mobileNumber.value);
      reply := Data(found);
    } else {
      reply := NoReply;
    }
  }
}
