/**
 * Concrete request sequences: a booking that passes every guard, one that
 * falls on a Tuesday, and a status edit that lets one reservation occupy
 * two tables at once.
 */
module Scenarios {
  import opened Wrappers
  import opened Records
  import opened Strings
  import opened Calendar
  import opened ReservationsService
  import opened ReservationsController
  import opened TablesService
  import opened TablesController

  /** A request for two people at 18:00 on `date`. */
  function Booking(date: string): ReservationBody
  {
    ReservationBody(Some("Ada"), Some("Lovelace"), Some("555-0100"), Some(date), Some("18:00"),
                    Some(JNumber(2.0)), None, None, None, None, {})
  }

  /** 2030-01-01 is a Tuesday. */
  lemma TuesdayExample()
    ensures ValidDate("2030-01-01") && UtcWeekday("2030-01-01") == 2
  {
    assert Year("2030-01-01") == 2030 && Month("2030-01-01") == 1 && Day("2030-01-01") == 1;
    assert DaysFromCivil(2030, 1, 1) == 21915;
  }

  /** 2030-01-03 is a Thursday. */
  lemma ThursdayExample()
    ensures ValidDate("2030-01-03") && UtcWeekday("2030-01-03") == 4
  {
    assert Year("2030-01-03") == 2030 && Month("2030-01-03") == 1 && Day("2030-01-03") == 3;
    assert DaysFromCivil(2030, 1, 3) == 21917;
  }

  lemma BookingIsWellFormed(date: string)
    ensures ReservationsController.HasProperties(Booking(date), RequiredProperties)
    ensures ReservationsController.HasOnlyValidProperties(Booking(date), ValidProperties)
    ensures ValidTime(TimeOf(Booking(date))) && DuringOperatingHours(TimeOf(Booking(date)))
    ensures PeopleIsNumber(PeopleOf(Booking(date))) && BookedStatus(Booking(date).status)
  {
    RequiredPresent(Booking(date));
    ValidPropertiesOnly(Booking(date));
    SixPmIsBookable();
  }

  lemma SixPmIsBookable()
    ensures ValidTime("18:00") && DuringOperatingHours("18:00")
  {
    assert TimePatternAt("18:00", 0);
    OperatingHoursOfClockTime("18:00");
  }

  /** A future Thursday booking within opening hours is admitted and stored as booked. */
  lemma ThursdayBookingAdmitted()
    ensures Admission(Booking("2030-01-03"), true).Success?
    ensures Inserted(Admission(Booking("2030-01-03"), true).value, 1, "now").status == Booked
  {
    ThursdayExample();
    BookingIsWellFormed("2030-01-03");
    AdmissionAcceptsExactly(Booking("2030-01-03"), true);
  }

  /** The same booking on a Tuesday is refused as closed. */
  lemma TuesdayBookingRefused()
    ensures Admission(Booking("2030-01-01"), true) == Failure(ClosedOnTuesday)
  {
    TuesdayExample();
    BookingIsWellFormed("2030-01-01");
    TuesdayBeatsFutureAndHours(Booking("2030-01-01"), true);
  }

  /** Two free tables for four and one booked party of two, numbered 7. */
  function Dining(): Db
  {
    Db(map[1 := Table(1, "Bar #1", 4, Free, None), 2 := Table(2, "Bar #2", 4, Free, None)],
       map[7 := Reservation(7, "Ada", "Lovelace", "555-0100", "2030-01-03", "18:00", 2, Booked, "now", "now")])
  }

  function SeatSeven(): TableBody
  {
    TableBody(None, None, Some(7), {})
  }

  function StatusBody(status: string): ReservationBody
  {
    ReservationBody(None, None, None, None, None, None, Some(status), None, None, None, {})
  }

  /** Reservation 7 as booked. */
  function Seven(): Reservation
  {
    Reservation(7, "Ada", "Lovelace", "555-0100", "2030-01-03", "18:00", 2, Booked, "now", "now")
  }

  /** Table 1 occupied by reservation 7, table 2 free, reservation 7 seated. */
  function FirstSeated(): Db
  {
    Db(map[1 := Table(1, "Bar #1", 4, Occupied, Some(7)), 2 := Table(2, "Bar #2", 4, Free, None)],
       map[7 := Seven().(status := Seated)])
  }

  /** As `FirstSeated`, with reservation 7 set back to booked. */
  function Rebooked(): Db
  {
    Db(FirstSeated().tables, map[7 := Seven()])
  }

  /** Both tables occupied by reservation 7, which is seated. */
  function DoublySeated(): Db
  {
    Db(map[1 := Table(1, "Bar #1", 4, Occupied, Some(7)), 2 := Table(2, "Bar #2", 4, Occupied, Some(7))],
       map[7 := Seven().(status := Seated)])
  }

  lemma SeatAtOne()
    ensures Seat(Dining(), 1, SeatSeven()) == Success(FirstSeated())
  {
    var db, b := Dining(), SeatSeven();
    assert SeatBodyOk(b);
    assert Loaded(db.reservations, b) == Some(Seven());
    OnlySeatedBlocksSeating(db, 1, b);
    var t := Seating(db, 1, b).value;
    assert t == Table(1, "Bar #1", 4, Occupied, Some(7));
    assert Written(db.tables, t) == FirstSeated().tables;
    assert Updated(db.reservations, StatusChange(7, Seated)) == FirstSeated().reservations;
  }

  lemma RebookSeven()
    ensures StatusUpdate(FirstSeated().reservations, 7, StatusBody(Booked)) == Success(Seven())
  {
    var body := StatusBody(Booked);
    assert ReservationsController.Present(body, Status);
    OnlyFinishedBlocksStatusUpdate(FirstSeated().reservations, 7, body);
  }

  lemma SeatAtTwo()
    ensures Seat(Rebooked(), 2, SeatSeven()) == Success(DoublySeated())
  {
    var db, b := Rebooked(), SeatSeven();
    assert SeatBodyOk(b);
    assert Loaded(db.reservations, b) == Some(Seven());
    OnlySeatedBlocksSeating(db, 2, b);
    var t := Seating(db, 2, b).value;
    assert t == Table(2, "Bar #2", 4, Occupied, Some(7));
    assert Written(db.tables, t) == DoublySeated().tables;
    assert Updated(db.reservations, StatusChange(7, Seated)) == DoublySeated().reservations;
  }

  lemma DiningIsConsistent()
    ensures SeatingConsistent(Dining())
  {
  }

  lemma FirstSeatedIsConsistent()
    ensures SeatingConsistent(FirstSeated())
  {
    DiningIsConsistent();
    SeatAtOne();
    SeatKeepsConsistency(Dining(), 1, SeatSeven());
  }

  lemma DoublySeatedIsInconsistent()
    ensures !SeatingConsistent(DoublySeated())
  {
    assert DoublySeated().tables[1].reservationId == DoublySeated().tables[2].reservationId;
  }

  /**
   * Seating reservation 7 at table 1, setting its status back to "booked",
   * and seating it again at table 2 all succeed, and leave both tables
   * occupied by reservation 7: seat and finish keep the seating invariant,
   * the status update does not.
   */
  lemma StatusUpdateBreaksSeating()
    ensures SeatingConsistent(Dining())
    ensures Seat(Dining(), 1, SeatSeven()) == Success(FirstSeated()) && SeatingConsistent(FirstSeated())
    ensures StatusUpdate(FirstSeated().reservations, 7, StatusBody(Booked)) == Success(Seven())
    ensures Rebooked() == Db(FirstSeated().tables, FirstSeated().reservations[7 := Seven()])
    ensures Seat(Rebooked(), 2, SeatSeven()) == Success(DoublySeated())
    ensures !SeatingConsistent(DoublySeated())
  {
    DiningIsConsistent();
    SeatAtOne();
    FirstSeatedIsConsistent();
    RebookSeven();
    assert FirstSeated().reservations[7 := Seven()] == map[7 := Seven()];
    SeatAtTwo();
    DoublySeatedIsInconsistent();
  }
}
