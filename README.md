# Restaurant reservations back end: guards, seating and the store, in Dafny

This project models the core of a restaurant reservation back end, an
Express application over a PostgreSQL store. It covers:

- the reservations controller: the guards a booking request passes and the
  order the routes chain them in (create, read, status update, edit, search);
- the tables controller: the guards of table creation, seating and finishing;
- the handlers `seat` and `finish`, each of which writes a table row and then
  a reservation row;
- the two services, whose queries run here against in-memory keyed maps.

Modules, one per concern:

| module | file | what it holds |
|---|---|---|
| `Wrappers` | wrappers.dfy | `Option`, `Result`, `Outcome` |
| `Records` | records.dfy | rows of `reservations` and `tables`, JSON scalars, `Number.isInteger`, the error kinds |
| `Strings` | strings.dfy | `replace(":", "")`, `replace(/\D/g, "")`, SQL `translate` and `like '%…%'`, UTF-16 length |
| `JsParse` | js_parse.dfy | `parseInt` without a radix |
| `Calendar` | calendar.dfy | `new Date("YYYY-MM-DD").getUTCDay()` over the proleptic Gregorian calendar |
| `Ordering` | ordering.dfy | `where … orderBy(column)`: filter, sort by a text column, no duplicates |
| `Pipeline` | pipeline.dfy | an Express middleware chain: the first failing guard answers |
| `ReservationsService` | reservations_service.dfy | class `ReservationTable`: list, find, read, create, update |
| `TablesService` | tables_service.dfy | class `TableStore`: list, read, create, seat, finish |
| `ReservationsController` | reservations_controller.dfy | the reservation guards, chains and handlers |
| `TablesController` | tables_controller.dfy | the table guards, chains, `seat` and `finish` |
| `Scenarios` | scenarios.dfy | concrete bookings and a concrete seating sequence |

## How the model reads

**Guard chains.** Each route is a sequence of `Check`s: a verdict and the
error the guard reports. `Pipeline.FirstFailure` returns the first failing
guard's error, and the handler runs only when every guard passes.

**Guards that use a loaded record.** Some guards read a record that an
earlier guard loaded, for example `tableCapacity` reads the table and the
reservation. In the model such a guard passes when the record is missing.
It is never reached in that case, because the loading guard fails first.

**Pure chain, stateful method.** Every chain is a pure function:

- `Admission` for creating a reservation;
- `StatusUpdate` for a status change;
- `Edit` for an edit;
- `TableAdmission` for creating a table;
- `Seating` and `Seat` for seating;
- `Finishing` and `Finish` for finishing.

Each route handler is a method that changes the store classes. Its
`ensures` ties the new rows to that function.

**Seating invariant.** `TablesController.SeatingConsistent` holds when:

- every occupied table names an existing reservation whose status is "seated";
- no two occupied tables name the same reservation.

Seat and finish each preserve it. The status route does not.
`Scenarios.StatusUpdateBreaksSeating` shows three requests that all
succeed:

1. seat reservation 7 at table 1;
2. set its status back to "booked";
3. seat it at table 2.

Afterwards two tables are occupied by reservation 7. The reason is that the
seating guards check only the reservation's status, never the other tables.

**Behaviour of the code worth knowing.**

- **Finish keeps the reservation id.** `finish` frees the table but leaves
  its `reservation_id` in place (`TablesController.FinishEffect`,
  `TablesController.SeatThenFinish`).
- **Only "finished" is terminal.** "cancelled" can still be updated and
  edited.
- **Terminal reservations can be seated.** A finished or cancelled
  reservation is seated like a booked one
  (`TablesController.OnlySeatedBlocksSeating`).
- **Status-update guard order.** The status check runs before the finished
  check, so an invalid status on a finished reservation is reported as
  invalid (`ReservationsController.StatusUpdateInvalidBeforeFinished`).
- **No positivity checks.** Negative party sizes and capacities pass the
  integer guards, and so does 0
  (`ReservationsController.PeopleIsNumberExamples`,
  `TablesController.NonPositiveCapacityAdmitted`). Whether a falsy 0 also
  gets past `hasProperties` depends on that helper, which is not modelled.
- **Empty initial status.** An empty initial status passes `bookedStatus`
  and is stored as "" (`ReservationsController.AdmittedStatus`).
- **A free table, not a free reservation.** Seating checks that the table is
  "Free" and the reservation is not "seated"
  (`TablesController.SeatAcceptsExactly`). It never checks that no other
  table names the reservation.
- **Two writes, not one transaction.** Seat and finish are two separate
  writes: the table row first, then the reservation row.

## Model

| member | source | states |
|---|---|---|
| Pipeline.FirstFailure | back-end/src/tables/tables.controller.js:162-185 | defines a route's guard chain: the guards run left to right and the first that fails answers, as each `next(error)` does |
| Pipeline.FirstFailurePasses | back-end/src/reservations/reservations.controller.js:258-295 | a route reaches its handler exactly when every guard of its chain passes |
| Pipeline.FirstFailureAt | back-end/src/reservations/reservations.controller.js:258-295 | when guard k is the first that fails, the route answers with guard k's error |
| Pipeline.FirstFailureIsFirst | back-end/src/reservations/reservations.controller.js:258-295 | every error a chain reports is that of the first failing guard |
| Records.IntegersAreIntegers | back-end/src/reservations/reservations.controller.js:70 | every integer, zero and negatives included, passes Number.isInteger and reads back unchanged |
| Strings.DigitValue | back-end/src/reservations/reservations.controller.js:84 | a decimal digit's value is below 10 |
| Strings.Utf16Length | back-end/src/tables/tables.controller.js:14 | `length` counts UTF-16 code units: between one and two per character |
| Strings.RemoveFirst | back-end/src/reservations/reservations.controller.js:84 | `replace(":", "")` leaves a string without a colon unchanged and otherwise removes exactly one character |
| Strings.RemoveFirstAt | back-end/src/reservations/reservations.controller.js:84 | the character removed is the first colon, and the rest stays in order |
| Strings.DigitsOnly | back-end/src/reservations/reservations.service.js:43 | `replace(/\D/g, "")` leaves only digits and never lengthens the query; with `DigitsOnlyAppend`, which digits remain and in what order |
| Strings.DigitsOnlyAppend | back-end/src/reservations/reservations.service.js:43 | the digits of a concatenation are the digits of each part, in order: together with the one-character case, DigitsOnly keeps exactly the digits in order |
| Strings.DigitsOnlyKeepsDigits | back-end/src/reservations/reservations.service.js:43 | a query of digits alone is left as it is |
| Strings.DigitsOnlyOfNoDigits | back-end/src/reservations/reservations.service.js:43 | a query with no digit becomes empty |
| Strings.Without | back-end/src/reservations/reservations.service.js:42 | `translate(mobile_number, '() -', '')` leaves none of the dropped characters; with `WithoutAppend`, `WithoutAllDropped` and `WithoutNothingToDrop`, exactly the other characters remain, in order |
| Strings.WithoutAppend | back-end/src/reservations/reservations.service.js:42 | `translate` works part by part: the result for a concatenation is the results for each part, in order |
| Strings.WithoutAllDropped | back-end/src/reservations/reservations.service.js:42 | a string made only of the dropped characters becomes empty under `translate` |
| Strings.WithoutNothingToDrop | back-end/src/reservations/reservations.service.js:42 | a number without punctuation is unchanged by `translate` |
| Strings.Contains | back-end/src/reservations/reservations.service.js:41-43 | defines `like '%p%'`: p occurs somewhere in the text |
| Strings.ContainsAt | back-end/src/reservations/reservations.service.js:41-43 | `like '%p%'` accepts whenever p occurs at some index |
| Strings.ContainsHasIndex | back-end/src/reservations/reservations.service.js:41-43 | whatever `like '%p%'` accepts has an occurrence of p at some index |
| JsParse.TrimStart | back-end/src/reservations/reservations.controller.js:84 | defines the white-space step of parseInt: the leading white space is dropped |
| JsParse.TrimStartDropsLeadingSpace | back-end/src/reservations/reservations.controller.js:84 | parseInt skips exactly the leading white space: what it drops is space, what it keeps does not start with space |
| JsParse.RadixDigitValue | back-end/src/reservations/reservations.controller.js:84 | a digit of base 10 or 16 is worth less than 16 |
| JsParse.LeadingDigits | back-end/src/reservations/reservations.controller.js:84 | parseInt reads the longest prefix of digits: a prefix, all digits, followed by a non-digit or the end |
| JsParse.LeadingDigitsOfDigits | back-end/src/reservations/reservations.controller.js:84 | a string of decimal digits is read whole |
| JsParse.ParseIntFourDigits | back-end/src/reservations/reservations.controller.js:84 | parseInt of four decimal digits is their decimal value |
| JsParse.ParseInt | back-end/src/reservations/reservations.controller.js:84 | defines `parseInt` without a radix: skip white space, one sign, an optional 0x prefix, the longest digit run, None when there is none |
| Calendar.WeekdayOfDay | back-end/src/reservations/reservations.controller.js:118 | getUTCDay is a weekday 0..6 |
| Calendar.UtcWeekday | back-end/src/reservations/reservations.controller.js:118 | the weekday of a YYYY-MM-DD date is 0..6 |
| Calendar.DaysFromCivil | back-end/src/reservations/reservations.controller.js:118 | defines the day number since 1970-01-01 of a year, month and day, counting days past the month's end on; its Gregorian correctness is the lemmas below |
| Calendar.MarchYearLength | back-end/src/reservations/reservations.controller.js:118 | the day count from one March 1 to the next is 366 in a Gregorian leap year and 365 otherwise |
| Calendar.MonthLength | back-end/src/reservations/reservations.controller.js:118 | consecutive month starts are the Gregorian month length apart |
| Calendar.NextDayNextWeekday | back-end/src/reservations/reservations.controller.js:118 | consecutive days have consecutive weekdays, modulo 7 |
| Calendar.DayOverflowRollsOver | back-end/src/reservations/reservations.controller.js:33-36 | a day number past the month's end is the matching day of the next month |
| Calendar.EpochIsThursday | back-end/src/reservations/reservations.controller.js:118 | 1970-01-01 is day 0 and a Thursday |
| Ordering.StrLe | back-end/src/reservations/reservations.service.js:10 | defines the text order `orderBy` sorts by: code-point lexicographic |
| Ordering.StrLeReflexive | back-end/src/reservations/reservations.service.js:10 | the column order is reflexive |
| Ordering.StrLeTotal | back-end/src/reservations/reservations.service.js:10 | the column order is total |
| Ordering.StrLeTransitive | back-end/src/reservations/reservations.service.js:10 | the column order is transitive |
| Ordering.StrLeAntisymmetric | back-end/src/reservations/reservations.service.js:10 | the column order is antisymmetric |
| Ordering.InsertBy | back-end/src/reservations/reservations.service.js:10 | inserting into a sorted result keeps it sorted and adds exactly that row |
| Ordering.InsertByMembers | back-end/src/reservations/reservations.service.js:10 | the rows after an insertion are the old ones and the new one |
| Ordering.InsertByKeepsDistinct | back-end/src/reservations/reservations.service.js:10 | inserting a row not yet present keeps the rows distinct |
| Ordering.SelectSorted | back-end/src/reservations/reservations.service.js:4-11 | a query returns exactly the kept rows, each once, ordered by the column |
| ReservationsService.Updated | back-end/src/reservations/reservations.service.js:30-36 | a keyed update changes only the row with that id, and only the columns given; without such a row nothing changes |
| ReservationsService.Inserted | back-end/src/reservations/reservations.service.js:14-19 | defines the row an insert creates: the body's columns, the status defaulting to "booked" and the timestamps to now |
| ReservationsService.Apply | back-end/src/reservations/reservations.service.js:30-36 | defines `update` on one row: each column given replaces the stored one, the others stay |
| ReservationsService.StatusChange | back-end/src/tables/tables.controller.js:136-139 | defines `{ status, reservation_id }`: a change of the status column alone |
| ReservationsService.ApplyWholeRow | back-end/src/reservations/reservations.service.js:30-36 | writing a whole record over the row with its id leaves exactly that record |
| ReservationsService.ApplyStatusChange | back-end/src/tables/tables.controller.js:136-140 | `{ status, reservation_id }` changes the status and nothing else |
| ReservationsService.QueryWithoutDigitsMatchesAll | back-end/src/reservations/reservations.service.js:39-46 | a phone query without any digit matches every reservation |
| ReservationsService.IsPending | back-end/src/reservations/reservations.service.js:7-9 | defines the rows `list(date)` keeps: that date, neither "finished" nor "cancelled" |
| ReservationsService.PhoneMatches | back-end/src/reservations/reservations.service.js:41-43 | defines the rows `find` keeps: the number without "() -" contains the query's digits |
| ReservationsService.IsDateListing | back-end/src/reservations/reservations.service.js:4-11 | defines the answer of `list(date)`: the pending rows of the date, each once, ordered by time |
| ReservationsService.IsPhoneListing | back-end/src/reservations/reservations.service.js:39-46 | defines the answer of `find`: the matching rows, each once, ordered by date |
| ReservationsService.ReservationTable.List | back-end/src/reservations/reservations.service.js:4-11 | the reservations of that date that are neither finished nor cancelled, each once, by time |
| ReservationsService.ReservationTable.Find | back-end/src/reservations/reservations.service.js:39-46 | the reservations whose number without punctuation contains the query's digits, each once, by date |
| ReservationsService.ReservationTable.Read | back-end/src/reservations/reservations.service.js:22-27 | the row with that id, present exactly when the id is stored |
| ReservationsService.ReservationTable.Create | back-end/src/reservations/reservations.service.js:14-19 | inserts under the given id or the next serial value, with defaulted status and timestamps; a taken key fails and changes no row |
| ReservationsService.ReservationTable.Update | back-end/src/reservations/reservations.service.js:30-36 | the rows become `Updated(rows, change)`, the updated row is returned, and rows stay keyed by id |
| ReservationsController.RequiredPresent | back-end/src/reservations/reservations.controller.js:6-13 | `hasProperties(...REQUIRED_PROPERTIES)` holds exactly when all six properties are present |
| ReservationsController.ValidPropertiesOnly | back-end/src/reservations/reservations.controller.js:15-21 | `hasOnlyValidProperties(...VALID_PROPERTIES)` holds exactly when no property lies outside the ten columns |
| ReservationsController.HasProperties | back-end/src/reservations/reservations.controller.js:261 | defines `hasProperties(...names)` as every name present |
| ReservationsController.HasOnlyValidProperties | back-end/src/reservations/reservations.controller.js:262 | defines `hasOnlyValidProperties(...names)` as nothing present outside the names |
| ReservationsController.ValidDate | back-end/src/reservations/reservations.controller.js:27-45 | defines validDate: the YYYY-MM-DD shape with month 1-12 and day 1-31 |
| ReservationsController.ValidTime | back-end/src/reservations/reservations.controller.js:48-61 | defines validTime as the unanchored pattern matching at some position |
| ReservationsController.TimePatternAt | back-end/src/reservations/reservations.controller.js:52 | defines a match of the time pattern at one position: an hour of one digit, of 0 or 1 and a digit, or of 2 and 0-3, then a colon, a digit 0-5 and a digit |
| ReservationsController.MatchFrom | back-end/src/reservations/reservations.controller.js:55 | defines the unanchored search: the pattern matches at position i or at a later one |
| ReservationsController.MatchFromIff | back-end/src/reservations/reservations.controller.js:52-55 | the unanchored time pattern matches at position i or later exactly when a digit, a colon and two minute digits occur there |
| ReservationsController.ValidTimeIff | back-end/src/reservations/reservations.controller.js:48-61 | validTime accepts exactly the strings containing a digit, a colon, a digit 0-5 and a digit |
| ReservationsController.ValidTimeExamples | back-end/src/reservations/reservations.controller.js:52 | "25:30" and "x99:59y" pass validTime, "10:75" fails |
| ReservationsController.PeopleIsNumber | back-end/src/reservations/reservations.controller.js:67-76 | defines peopleIsNumber as Number.isInteger of `people` |
| ReservationsController.PeopleIsNumberExamples | back-end/src/reservations/reservations.controller.js:67-76 | every integer party size passes, zero and negatives included; 2.5 and the string "2" fail |
| ReservationsController.DuringOperatingHours | back-end/src/reservations/reservations.controller.js:80-93 | defines duringOperatingHours: parseInt of the time without its first colon lies in 1030..2130; NaN fails |
| ReservationsController.OperatingHoursOfClockTime | back-end/src/reservations/reservations.controller.js:80-93 | on an HH:MM time, duringOperatingHours accepts exactly 10:30 through 21:30 |
| ReservationsController.OperatingHoursBoundaries | back-end/src/reservations/reservations.controller.js:87 | 10:30 and 21:30 are accepted, 10:29 and 21:31 refused |
| ReservationsController.NotTuesday | back-end/src/reservations/reservations.controller.js:115-126 | defines notTuesday: the UTC weekday of a parsable date is not 2; an unparsable date passes |
| ReservationsController.BookedStatus | back-end/src/reservations/reservations.controller.js:131-143 | defines bookedStatus: an absent or empty status, or "booked" |
| ReservationsController.ValidStatus | back-end/src/reservations/reservations.controller.js:187-201 | defines validStatus: one of "booked", "seated", "finished", "cancelled" |
| ReservationsController.StatusNotFinished | back-end/src/reservations/reservations.controller.js:204-214 | defines statusNotFinished: the stored status is not "finished" |
| ReservationsController.CreateChecks | back-end/src/reservations/reservations.controller.js:260-271 | defines the nine create guards in route order, each with its error |
| ReservationsController.Admission | back-end/src/reservations/reservations.controller.js:260-271 | defines the create chain: the first failing guard's error, or the body as the insert |
| ReservationsController.AdmissionAcceptsExactly | back-end/src/reservations/reservations.controller.js:260-271 | a booking is admitted exactly when all nine create guards pass |
| ReservationsController.AdmissionReportsFirstFailure | back-end/src/reservations/reservations.controller.js:260-271 | a refused booking is answered with the first failing guard's error, in route order |
| ReservationsController.TuesdayBeatsFutureAndHours | back-end/src/reservations/reservations.controller.js:115-126 | a well-formed booking dated on a Tuesday is refused as closed, whatever its future and opening-hours verdicts |
| ReservationsController.AdmittedStatus | back-end/src/reservations/reservations.controller.js:131-143 | an admitted booking is stored as "" exactly when the body's status is "", and as "booked" otherwise |
| ReservationsController.NewRow | back-end/src/reservations/reservations.controller.js:223-224 | defines the insert `create` hands the store: the fields of `req.body.data` as they are |
| ReservationsController.CreateReservation | back-end/src/reservations/reservations.controller.js:222-226 | nothing is written unless the booking is admitted; otherwise the admitted insert is run, and the serial `nextId` advances exactly when the body names no id |
| ReservationsController.ReadReservation | back-end/src/reservations/reservations.controller.js:172-184 | through the store's read: succeeds exactly for a stored id with that row, and otherwise reports not found |
| ReservationsController.StatusChecks | back-end/src/reservations/reservations.controller.js:274-281 | defines the five updateStatus guards in route order |
| ReservationsController.StatusUpdate | back-end/src/reservations/reservations.controller.js:235-244 | defines the status chain: the first failing guard's error, or the stored record with the new status |
| ReservationsController.StatusUpdateNotFoundFirst | back-end/src/reservations/reservations.controller.js:274-281 | an unknown id is reported before the status is looked at |
| ReservationsController.StatusUpdateInvalidBeforeFinished | back-end/src/reservations/reservations.controller.js:274-281 | an invalid status is reported before the stored status is looked at |
| ReservationsController.OnlyFinishedBlocksStatusUpdate | back-end/src/reservations/reservations.controller.js:186-214 | for a known reservation and a valid status, the update fails exactly when the stored status is "finished", and otherwise replaces the status only |
| ReservationsController.UpdateReservationStatus | back-end/src/reservations/reservations.controller.js:235-244 | the answer is the status chain's; on success the merged record replaces the row, otherwise nothing changes |
| ReservationsController.Merge | back-end/src/reservations/reservations.controller.js:250-253 | defines `{ ...reservation, ...data }`: each body property replaces the stored value |
| ReservationsController.EditChecks | back-end/src/reservations/reservations.controller.js:282-294 | defines the ten updateReservation guards in route order, the finished check last |
| ReservationsController.Edit | back-end/src/reservations/reservations.controller.js:282-294 | defines the edit chain: the first failing guard's error, or the merged record |
| ReservationsController.EditReportsFinishedLast | back-end/src/reservations/reservations.controller.js:282-294 | a finished reservation is reported only when every property guard has passed |
| ReservationsController.EditMerges | back-end/src/reservations/reservations.controller.js:246-256 | a successful edit is `{ ...reservation, ...data }` of a stored, unfinished reservation with all required properties |
| ReservationsController.EditTakesBodyFields | back-end/src/reservations/reservations.controller.js:246-256 | a successful edit takes every property the body gives, status and id included, and keeps the stored value of the rest |
| ReservationsController.UpdateReservation | back-end/src/reservations/reservations.controller.js:246-256 | the merged record is written to the row with the merged record's id; when no row has that id nothing changes |
| ReservationsController.Truthy | back-end/src/reservations/reservations.controller.js:149 | defines a query parameter JavaScript treats as true: present and not empty |
| ReservationsController.Search | back-end/src/reservations/reservations.controller.js:146-169 | a date query lists that day's pending reservations, or reports none pending; else a phone query lists its matches; with neither there is no answer |
| TablesService.Written | back-end/src/tables/tables.service.js:27-33 | a keyed update with a whole row replaces only the row with that id; without such a row nothing changes |
| TablesService.InsertedTable | back-end/src/tables/tables.service.js:11-16 | defines the row a table insert creates, with status "Free" |
| TablesService.IsTableListing | back-end/src/tables/tables.service.js:4-8 | defines the answer of `list()`: every table, each once, ordered by name |
| TablesService.TableStore.List | back-end/src/tables/tables.service.js:4-8 | every table, each once, ordered by name |
| TablesService.TableStore.Read | back-end/src/tables/tables.service.js:19-24 | the table with that id, present exactly when the id is stored |
| TablesService.TableStore.Create | back-end/src/tables/tables.service.js:11-16 | inserts a "Free" table under the next serial id; a taken key fails and changes no row; success adds one row |
| TablesService.TableStore.Write | back-end/src/tables/tables.service.js:27-42 | the rows become `Written(rows, table)` and stay keyed by id |
| TablesService.TableStore.Seat | back-end/src/tables/tables.service.js:27-33 | the rows become `Written(rows, table)` |
| TablesService.TableStore.Finish | back-end/src/tables/tables.service.js:36-42 | the rows become `Written(rows, table)` |
| TablesController.HasProperties | back-end/src/tables/tables.controller.js:165 | defines `hasProperties(...names)` on a table body |
| TablesController.HasOnlyValidProperties | back-end/src/tables/tables.controller.js:166 | defines `hasOnlyValidProperties(...names)` on a table body |
| TablesController.TableNameLength | back-end/src/tables/tables.controller.js:12-22 | defines tableNameLength: more than one UTF-16 code unit |
| TablesController.CapacityIsNumber | back-end/src/tables/tables.controller.js:25-37 | defines capacityIsNumber as Number.isInteger of the capacity |
| TablesController.TableCapacity | back-end/src/tables/tables.controller.js:73-84 | defines tableCapacity: the table's capacity is at least the party |
| TablesController.TableStatusFree | back-end/src/tables/tables.controller.js:87-97 | defines tableStatusFree: status "Free" |
| TablesController.TableStatusOccupied | back-end/src/tables/tables.controller.js:100-110 | defines tableStatusOccupied: status "Occupied" |
| TablesController.CreateChecks | back-end/src/tables/tables.controller.js:164-170 | defines the four create-table guards in route order |
| TablesController.TableAdmission | back-end/src/tables/tables.controller.js:164-170 | defines the create-table chain: the first failing guard's error, or the insert |
| TablesController.TableAdmissionAcceptsExactly | back-end/src/tables/tables.controller.js:162-170 | a table is admitted exactly when it has a name and a capacity, no other property but reservation_id, a name longer than one code unit and an integer capacity; the insert carries them as given |
| TablesController.ShortNameBeforeCapacity | back-end/src/tables/tables.controller.js:164-170 | any name of at most one UTF-16 code unit is refused as too short before the capacity is looked at |
| TablesController.NonPositiveCapacityAdmitted | back-end/src/tables/tables.controller.js:25-37 | negative capacities pass `capacityIsNumber` and the table is admitted; for 0 this holds of the model, where a present capacity passes `hasProperties` |
| TablesController.CreateTable | back-end/src/tables/tables.controller.js:117-121 | nothing is written unless the table is admitted; otherwise the insert is run |
| TablesController.Loaded | back-end/src/tables/tables.controller.js:57-59 | the reservation is loaded exactly when the body names a stored id |
| TablesController.SeatChecks | back-end/src/tables/tables.controller.js:171-179 | defines the seven seat guards in route order |
| TablesController.Seating | back-end/src/tables/tables.controller.js:124-134 | on success the table exists and is "Free" and large enough, the reservation exists and is not "seated", and the written row is the table with its id, the reservation's id and status "Occupied" |
| TablesController.Seat | back-end/src/tables/tables.controller.js:124-142 | defines the stores after seat: the table row written, then the reservation's status set to "seated" |
| TablesController.Finishing | back-end/src/tables/tables.controller.js:145-152 | on success the table exists and the written row is the table with status "Free" |
| TablesController.FinishChecks | back-end/src/tables/tables.controller.js:180-184 | defines the two finish guards in route order |
| TablesController.Finish | back-end/src/tables/tables.controller.js:145-160 | defines the stores after finish: the table row written, then the named reservation finished; no reservation named, none changed |
| TablesController.SeatBodyChecks | back-end/src/tables/tables.controller.js:172-173 | a body with exactly reservation_id passes both property guards of seat |
| TablesController.SeatBodyRefused | back-end/src/tables/tables.controller.js:172-173 | a seat body without `reservation_id` is refused as missing, and one with any other property as invalid, before any lookup |
| TablesController.CapacityBeforeOccupancy | back-end/src/tables/tables.controller.js:73-84 | a party larger than the table is refused for capacity, whether or not the table is free |
| TablesController.OnlySeatedBlocksSeating | back-end/src/tables/tables.controller.js:57-70 | for a free table large enough, seating fails exactly when the reservation is already "seated" |
| TablesController.SeatAcceptsExactly | back-end/src/tables/tables.controller.js:171-179 | for a well-formed body, seating succeeds exactly when the table exists, the reservation exists and is not "seated", the table holds the party and is "Free" |
| TablesController.OccupiedTableRefused | back-end/src/tables/tables.controller.js:87-97 | a table that is not "Free" is refused as occupied once the other guards pass |
| TablesController.SeatLookupsFirst | back-end/src/tables/tables.controller.js:171-179 | an unknown table is reported first, then an unknown reservation |
| TablesController.SeatEffect | back-end/src/tables/tables.controller.js:124-142 | a seat marks the table occupied by the reservation and the reservation seated; every other row and column is unchanged |
| TablesController.FinishAcceptsExactly | back-end/src/tables/tables.controller.js:180-184 | finish succeeds exactly on an existing occupied table, and reports not found, then not occupied |
| TablesController.FinishEffect | back-end/src/tables/tables.controller.js:145-160 | a finish frees the table, keeps its reservation_id and marks that reservation finished when it is stored; every other table and reservation is unchanged, and with no stored reservation named no reservation changes |
| TablesController.SeatThenFinish | back-end/src/tables/tables.controller.js:124-160 | seat then finish leaves the table as it was but naming the reservation, and the reservation finished |
| TablesController.SeatingConsistent | back-end/src/tables/tables.controller.js:124-160 | defines the seating invariant: each occupied table names a stored "seated" reservation, and no two occupied tables name the same one |
| TablesController.SeatKeepsConsistency | back-end/src/tables/tables.controller.js:124-142 | seat preserves the seating invariant |
| TablesController.FinishKeepsConsistency | back-end/src/tables/tables.controller.js:145-160 | finish preserves the seating invariant |
| TablesController.SeatTable | back-end/src/tables/tables.controller.js:124-142 | answers with `Seating`'s row and leaves both stores as `Seat` describes |
| TablesController.FinishTable | back-end/src/tables/tables.controller.js:145-160 | answers with `Finishing`'s row and leaves both stores as `Finish` describes |
| Scenarios.TuesdayExample | back-end/src/reservations/reservations.controller.js:118 | 2030-01-01 is a valid date and a Tuesday |
| Scenarios.ThursdayExample | back-end/src/reservations/reservations.controller.js:118 | 2030-01-03 is a valid date and a Thursday |
| Scenarios.SixPmIsBookable | back-end/src/reservations/reservations.controller.js:48-93 | 18:00 passes validTime and duringOperatingHours |
| Scenarios.ThursdayBookingAdmitted | back-end/src/reservations/reservations.controller.js:260-271 | a future Thursday booking at 18:00 is admitted and stored as "booked" |
| Scenarios.TuesdayBookingRefused | back-end/src/reservations/reservations.controller.js:115-126 | the same booking on a Tuesday is refused as closed |
| Scenarios.SeatAtOne | back-end/src/tables/tables.controller.js:124-142 | seating a booked party at a free table occupies it and seats the reservation |
| Scenarios.RebookSeven | back-end/src/reservations/reservations.controller.js:235-244 | a seated reservation can be set back to "booked" |
| Scenarios.SeatAtTwo | back-end/src/tables/tables.controller.js:124-142 | the re-booked reservation is seated at a second table while the first still holds it |
| Scenarios.StatusUpdateBreaksSeating | back-end/src/tables/tables.controller.js:57-70 | seat, status update and seat all succeed and leave one reservation on two occupied tables, breaking the invariant seat and finish keep |

## Left out

- HTTP and Express plumbing are not modelled. This covers status codes, `res.json`, `asyncErrorBoundary`, and the error-message texts. Each error is an `ErrorKind`, with its HTTP status given in a comment.
- `hasProperties` and `hasOnlyValidProperties` come from `back-end/src/errors/`, which is not part of this model. They are modelled as "present" and "only these present". How they treat falsy values is therefore not captured.
- `futureDate`: its verdict enters as the boolean `inFuture`. The clock, the "EST" date string and the `setHours` arithmetic are left out, because they depend on the server's clock and time zone.
- `validDate`: the Date-constructor half is modelled as "month 1-12 and day 1-31", the range the V8 ISO date parser accepts. A day past the month's end rolls over. Other engines may differ.
- Request values are typed: `table_name` is a string, ids are integers and `people` is a JSON scalar. JavaScript coercions of other types are left out, for example a numeric `table_name` or a string `reservation_id` from the URL.
- Column ordering compares strings by code point. The database collation, and its ordering of typed date and time columns, are not modelled.
- Timestamps enter as the parameter `now`. The insert defaults are taken as "booked" for reservations and "Free" for tables, because the schema is not part of this model.
- Concurrency, transactions and SQL are not modelled. The model runs one request at a time on in-memory maps, so a race between the two writes of seat or finish is not captured.
- Not modelled: the `console.log` in `capacityIsNumber`, the no-op `Date(reservation_date)` call, and all front-end code.
- JSON numbers are exact reals here. JavaScript reads them as doubles, so `2.0000000000000001` arrives as 2 and passes `Number.isInteger`; the model refuses it.
- `list(date)` compares `reservation_date` as text. The schema is not part of this model. If the column has a date type, the database equates "2030-1-3" with 2030-01-03 and would refuse a rolled-over date that `validDate` passes (such as "2031-02-30"); the model's `CreateReservation` and `UpdateReservation` store such a date.
