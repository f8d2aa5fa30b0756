/** The rows of the `reservations` and `tables` tables, request values, and the errors the API reports. */
module Records {
  import opened Wrappers

  /**
   * A scalar value of a JSON request body. Numbers are exact; bodies do not
   * carry NaN or infinities.
   */
  datatype Json = JNumber(x: real) | JString(s: string) | JBool(b: bool) | JNull

  /** `Number.isInteger(v)`: a number with no fractional part, never a string or boolean. */
  predicate IsInteger(v: Json)
  {
    v.JNumber? && v.x.Floor as real == v.x
  }

  function IntegerValue(v: Json): int
    requires IsInteger(v)
  {
    v.x.Floor
  }

  /** Every integer, zero and negatives included, passes Number.isInteger and reads back unchanged. */
  lemma IntegersAreIntegers(n: int)
    ensures IsInteger(JNumber(n as real)) && IntegerValue(JNumber(n as real)) == n
  {
  }

  const Booked := "booked"
  const Seated := "seated"
  const Finished := "finished"
  const Cancelled := "cancelled"

  const Free := "Free"
  const Occupied := "Occupied"

  /** A row of `reservations`; `status` is free text in the store. */
  datatype Reservation = Reservation(
    id: int,
    firstName: string,
    lastName: string,
    mobileNumber: string,
    date: string,
    time: string,
    people: int,
    status: string,
    createdAt: string,
    updatedAt: string)

  /** A row of `tables`; `reservationId` is NULL when no reservation was ever bound. */
  datatype Table = Table(
    id: int,
    name: string,
    capacity: int,
    status: string,
    reservationId: Option<int>)

  /**
   * Why a request was refused, one kind per guard. The comment gives the
   * HTTP status the API answers with.
   */
  datatype ErrorKind =
    | MissingProperty          // 400: a required body property is absent
    | InvalidProperty          // 400: the body has a property the operation does not allow
    | InvalidDate              // 400
    | InvalidTime              // 400
    | InvalidPeople            // 400
    | ClosedOnTuesday          // 400
    | NotInFuture              // 400
    | OutsideOperatingHours    // 400
    | InvalidInitialStatus     // 400
    | ReservationNotFound      // 404
    | InvalidStatus            // 400
    | ReservationFinished      // 400
    | NoPendingReservations    // 404
    | TableNameTooShort        // 400
    | InvalidCapacity          // 400
    | TableNotFound            // 404
    | ReservationAlreadySeated // 400
    | InsufficientCapacity     // 400
    | TableOccupied            // 400
    | TableNotOccupied         // 400
    | DuplicateKey             // 500: the store refused an insert whose key is taken
}
