/**
 * The `reservations` table and the queries the reservations service runs
 * on it, held in memory: a keyed map of rows and the serial sequence that
 * generates ids.
 */
module ReservationsService {
  import opened Wrappers
  import opened Records
  import opened Strings
  import opened Ordering

  /** The columns an insert supplies; a missing one takes the column's default. */
  datatype NewReservation = NewReservation(
    id: Option<int>,
    firstName: string,
    lastName: string,
    mobileNumber: string,
    date: string,
    time: string,
    people: int,
    status: Option<string>,
    createdAt: Option<string>,
    updatedAt: Option<string>)

  /** The row an insert of `n` creates under key `id` at time `now`. */
  function Inserted(n: NewReservation, id: int, now: string): Reservation
  {
    Reservation(id, n.firstName, n.lastName, n.mobileNumber, n.date, n.time, n.people,
                n.status.GetOr(Booked), n.createdAt.GetOr(now), n.updatedAt.GetOr(now))
  }

  /**
   * The argument of `update`: the key of the row to change and the columns to
   * set; None leaves a column as it is.
   */
  datatype ReservationChange = ReservationChange(
    id: int,
    firstName: Option<string>,
    lastName: Option<string>,
    mobileNumber: Option<string>,
    date: Option<string>,
    time: Option<string>,
    people: Option<int>,
    status: Option<string>,
    createdAt: Option<string>,
    updatedAt: Option<string>)

  /** Row `r` after the columns given in `c` are set. */
  function Apply(r: Reservation, c: ReservationChange): Reservation
  {
    Reservation(c.id, c.firstName.GetOr(r.firstName), c.lastName.GetOr(r.lastName),
                c.mobileNumber.GetOr(r.mobileNumber), c.date.GetOr(r.date), c.time.GetOr(r.time),
                c.people.GetOr(r.people), c.status.GetOr(r.status),
                c.createdAt.GetOr(r.createdAt), c.updatedAt.GetOr(r.updatedAt))
  }

  /** A change that sets every column to the values of `r`. */
  function WholeRow(r: Reservation): ReservationChange
  {
    ReservationChange(r.id, Some(r.firstName), Some(r.lastName), Some(r.mobileNumber), Some(r.date),
                      Some(r.time), Some(r.people), Some(r.status), Some(r.createdAt), Some(r.updatedAt))
  }

  /** `{ status, reservation_id }`: a change of the status column alone. */
  function StatusChange(id: int, status: string): ReservationChange
  {
    ReservationChange(id, None, None, None, None, None, None, Some(status), None, None)
  }

  /** The rows after `update(c)`: the row keyed `c.id`, if there is one, gets the columns of `c`. */
  function Updated(rows: map<int, Reservation>, c: ReservationChange): (after: map<int, Reservation>)
    ensures after.Keys == rows.Keys
    ensures forall id :: id in rows && id != c.id ==> after[id] == rows[id]
    ensures c.id in rows ==> after[c.id] == Apply(rows[c.id], c)
  {
    if c.id in rows then rows[c.id := Apply(rows[c.id], c)] else rows
  }

  /** Every row is stored under its own id. */
  ghost predicate ReservationsKeyed(rows: map<int, Reservation>)
  {
    forall id :: id in rows ==> rows[id].id == id
  }

  /** Writing a whole row over the row with the same key leaves exactly that row. */
  lemma ApplyWholeRow(r: Reservation, s: Reservation)
    requires r.id == s.id
    ensures Apply(r, WholeRow(s)) == s
  {
  }

  /** A status change replaces the status and nothing else. */
  lemma ApplyStatusChange(r: Reservation, status: string)
    ensures Apply(r, StatusChange(r.id, status)) == r.(status := status)
  {
  }

  /** The rows `list(date)` returns: that date, neither finished nor cancelled. */
  predicate IsPending(r: Reservation, date: string)
  {
    r.date == date && r.status != Finished && r.status != Cancelled
  }

  /** `translate(mobile_number, '() -', '')`: the punctuation the stored numbers are compared without. */
  const PhonePunctuation: set<char> := {'(', ')', ' ', '-'}

  /** The rows `find(query)` returns: the query's digits occur in the stored number without its punctuation. */
  predicate PhoneMatches(r: Reservation, query: string)
  {
    Contains(Without(r.mobileNumber, PhonePunctuation), DigitsOnly(query))
  }

  /** A query with no digit at all matches every reservation. */
  lemma QueryWithoutDigitsMatchesAll(r: Reservation, query: string)
    requires forall i :: 0 <= i < |query| ==> !IsDigit(query[i])
    ensures PhoneMatches(r, query)
  {
    DigitsOnlyOfNoDigits(query);
  }

  function TimeKey(r: Reservation): string { r.time }
  function DateKey(r: Reservation): string { r.date }

  /** The specification of `list(date)`: the pending rows of that date, each once, by time. */
  ghost predicate IsDateListing(rows: map<int, Reservation>, date: string, result: seq<Reservation>)
  {
    && (forall r :: r in result <==> r in rows.Values && IsPending(r, date))
    && SortedBy(result, TimeKey)
    && NoDuplicates(result)
  }

  /** The specification of `find(query)`: the matching rows, each once, by date. */
  ghost predicate IsPhoneListing(rows: map<int, Reservation>, query: string, result: seq<Reservation>)
  {
    && (forall r :: r in result <==> r in rows.Values && PhoneMatches(r, query))
    && SortedBy(result, DateKey)
    && NoDuplicates(result)
  }

  class ReservationTable {
    var rows: map<int, Reservation>
    /** The next value of the `reservation_id` sequence. */
    var nextId: int

    ghost predicate Valid()
      reads this
    {
      ReservationsKeyed(rows)
    }

    constructor ()
      ensures Valid() && rows == map[] && nextId == 1
    {
      rows := map[];
      nextId := 1;
    }

    /** `list(date)` */
    method List(date: string) returns (result: seq<Reservation>)
      ensures IsDateListing(rows, date, result)
    {
      result := SelectSorted(rows, r => IsPending(r, date), TimeKey);
    }

    /** `find(mobile_number)` */
    method Find(query: string) returns (result: seq<Reservation>)
      ensures IsPhoneListing(rows, query, result)
    {
      result := SelectSorted(rows, r => PhoneMatches(r, query), DateKey);
    }

    /** `read(reservation_id)`: the row with that id, or nothing. */
    function Read(id: int): (r: Option<Reservation>)
      reads this
      requires Valid()
      ensures r.Some? <==> id in rows
      ensures r.Some? ==> r.value.id == id && r.value == rows[id]
    {
      if id in rows then Some(rows[id]) else None
    }

    /**
     * `create(reservation)`: the key is the given id, or else the next value
     * of the sequence, which is used up either way. A taken key makes the
     * insert fail and changes no row.
     */
    method Create(n: NewReservation, now: string) returns (r: Result<Reservation, ErrorKind>)
      requires Valid()
      modifies this
      ensures Valid()
      ensures nextId == if n.id.None? then old(nextId) + 1 else old(nextId)
      ensures var id := n.id.GetOr(old(nextId));
        if id in old(rows) then r == Failure(DuplicateKey) && rows == old(rows)
        else r == Success(Inserted(n, id, now)) && rows == old(rows)[id := Inserted(n, id, now)]
    {
      var id := n.id.GetOr(nextId);
      if n.id.None? {
        nextId := nextId + 1;
      }
      if id in rows {
        r := Failure(DuplicateKey);
      } else {
        var row := Inserted(n, id, now);
        rows := rows[id := row];
        r := Success(row);
      }
    }

    /**
     * `update(change)`: sets the given columns of the row whose id is
     * `change.id` and returns that row; no row with that id, no change.
     */
    method Update(c: ReservationChange) returns (r: Option<Reservation>)
      requires Valid()
      modifies this`rows
      ensures Valid()
      ensures rows == Updated(old(rows), c)
      ensures r == if c.id in old(rows) then Some(rows[c.id]) else None
    {
      if c.id in rows {
        var row := Apply(rows[c.id], c);
        rows := rows[c.id := row];
        r := Some(row);
      } else {
        r := None;
      }
    }
  }
}
