# RoomBook booking core in Dafny

RoomBook is a meeting-room booking backend. This project models its core:

- the hourly slot grid (nine one-hour slots, 09:00 to 18:00);
- the half-open overlap rule that decides whether a booking blocks a slot;
- the per-date fetch of a room's bookings;
- the slot loop shared by the `get_rooms` and `get_availability` endpoints;
- `create_booking`, which converts UTC to Asia/Kolkata local time and stores a booking under a fresh confirmation code;
- the fixture seeding `add_fixtures`, which inserts each fixture room whose name is not yet in the table.

Files and modules:

- `slots.dfy` (`Slots`): time scale, grid, `Overlaps`, the UTC+05:30 shift, and the `HH:MM` labels.
- `entities.dfy` (`Entities`): the `Room` and `Booking` rows, the error outcomes, and the lookup by primary key.
- `availability.dfy` (`Availability`): the day filters, the slot computation and the two read endpoints.
- `bookings.dfy` (`Bookings`): the conflict validator and the `BookingStore` class with `CreateBooking`.
- `fixtures.dfy` (`Fixtures`): the ten fixtures and the `RoomTable` class with `AddFixtures`.

Conventions:

- Instants are integers counted in microseconds, the finest unit the source's timestamps carry.
- A date is a day number `d`. Its midnight is `DayStart(d)` and its last instant (23:59:59.999999) is `DayLast(d)`.
- A slot is identified by its start hour. `Label` renders an hour the way `strftime('%H:%M')` does.
- The two endpoints return the rendered labels, as the source does.

Behaviours of the code worth knowing, and where the model departs from it:

- Bookings are fetched for a date by their *start* only (`backend/app.py:48-51`, `backend/app.py:93-95`); a booking's end is never compared with the day. `OvernightBookingExample` shows a booking from 23:00 the day before until 10:00 that still leaves the 09:00 slot free, although `CreateBooking` would reject a new 09:00 booking that overlaps it.
- The two endpoints use slightly different filters. `get_rooms` uses a strict `<` against 23:59:59.999999; `get_availability` uses an inclusive `between`. Both are modelled. `FetchFiltersAgree` proves they report the same slots.
- `create_booking` does not reject an end at or before the start, nor an unknown room. The model does not either.
- `create_booking` stores every booking without looking for an overlapping one. The test suite asserts that posting the same booking twice is rejected with status 400 (`backend/test_app.py:64-77`). The model adds a full overlap check against the same room's bookings, so that no two bookings of one room ever overlap. This check fills a gap: the tests assert it, but `backend/app.py:116-144` does not implement it. See "## Findings".

## Model

| member | source | states |
|---|---|---|
| `Slots.Overlaps` | backend/app.py:60 | defines overlap of [aStart, aEnd) and [bStart, bEnd) as each starting before the other ends; the conflict validator and the slot loop (backend/app.py:106) both use it |
| `Slots.ToKolkata` | backend/app.py:126-127 | defines the local instant as the UTC instant plus 5 h 30 min, with the zone information dropped |
| `Slots.DayLast` | backend/app.py:48-51 | the last instant of a date lies in that date, and one microsecond later is the next midnight |
| `Slots.OverlapsSymmetric` | backend/app.py:59-62 | the overlap test gives the same answer whichever interval comes first |
| `Slots.OverlapsHalfOpen` | backend/app.py:105-108 | an interval ending exactly where another starts does not overlap it; a non-empty interval overlaps itself |
| `Slots.GridShape` | backend/app.py:54-56 | the grid is hours 9..17 in order, nine slots, contiguous from 09:00 to 18:00, pairwise non-overlapping |
| `Slots.ToKolkataKeepsShape` | backend/app.py:124-127 | the fixed +05:30 shift keeps each booking's duration and the order of its two ends |
| `Slots.Label` | backend/app.py:111 | a label is five characters "HH:00": two decimal digits that spell the hour, a colon and "00" |
| `Slots.LabelOrder` | backend/app.py:65 | distinct hours give distinct labels, ordered as strings the way the hours are ordered |
| `Slots.Labels` | backend/app.py:99-111 | the label list has one label per hour, position by position |
| `Slots.GridLabels` | backend/app.py:100-102 | the grid's labels are exactly "09:00" through "17:00" |
| `Entities.FindRoom` | backend/app.py:92 | a room is found only if it has the requested id, and nothing is found exactly when no room has that id |
| `Availability.FreeBelow` | backend/app.py:99-111 | defines the slot list after the loop has handled every grid hour below `h`: the previous list, with `h - 1` appended when no fetched booking overlaps that slot |
| `Availability.Available` | backend/app.py:99-111 | defines the free hours of a date as the loop's list once it has passed all hours up to 17 |
| `Availability.SlotLabels` | backend/app.py:99-111 | defines the endpoint's answer as the labels of the free hours, in order |
| `Availability.IsBooked` | backend/app.py:105-108 | a slot is booked exactly when some fetched booking overlaps it |
| `Availability.FreeBelowMembers` | backend/app.py:99-111 | after the loop has passed an hour, the output holds exactly the free grid hours before it |
| `Availability.FreeBelowAscending` | backend/app.py:99-111 | the output built so far is strictly ascending and lies below the current hour |
| `Availability.AvailableIff` | backend/app.py:105-111 | a slot is listed if and only if it is a grid slot that no fetched booking overlaps, so listed and blocked partition the grid |
| `Availability.AvailableOrdered` | backend/app.py:99-111 | the output is strictly ascending, duplicate-free, holds only grid hours and has at most nine entries |
| `Availability.SlotLabelsAscending` | backend/app.py:99-111 | the rendered labels are strictly ascending as strings and each is a grid label |
| `Availability.AvailableNoBookings` | backend/app.py:99-111 | with no bookings the day's slots are all nine labels from "09:00" to "17:00", "09:00" among them |
| `Availability.AvailableMonotone` | backend/app.py:105-111 | adding bookings never adds an available slot |
| `Availability.AvailableAppend` | backend/app.py:105-111 | appending one booking removes exactly the slots that booking overlaps |
| `Availability.HalfHourBookingExample` | backend/app.py:105-111 | a 09:30-10:30 booking blocks 09:00 and 10:00, and every other slot stays |
| `Availability.FetchDay` | backend/app.py:93-95 | the fetch keeps exactly the bookings of the room whose start lies in the date's window |
| `Availability.FetchForRooms` | backend/app.py:48-51 | `get_rooms` keeps exactly the room's bookings whose start is at or after midnight and strictly before 23:59:59.999999 |
| `Availability.FetchForAvailability` | backend/app.py:93-95 | `get_availability` keeps exactly the room's bookings whose start lies between midnight and 23:59:59.999999, both ends included |
| `Availability.LastInstantFetchedOnce` | backend/app.py:48-51 | a booking that starts at 23:59:59.999999 is fetched by `get_availability` but not by `get_rooms` |
| `Availability.FetchFiltersAgree` | backend/app.py:48-51 | the `get_rooms` fetch and the `get_availability` fetch give the same slots |
| `Availability.OtherDayIgnored` | backend/app.py:93-95 | a booking of another room, or one that starts before or after the date, changes neither endpoint's slots |
| `Availability.OvernightBookingExample` | backend/app.py:93-108 | a booking that starts the evening before and overlaps 09:00 still leaves 09:00 available |
| `Availability.AvailableSlots` | backend/app.py:99-111 | the loop returns the free grid hours, in ascending order, exactly those no fetched booking overlaps |
| `Availability.GetAvailability` | backend/app.py:85-114 | a malformed date gives InvalidDate, then an unknown room gives RoomNotFound, otherwise the labels of the free slots of that room on that date |
| `Availability.GetRooms` | backend/app.py:45-76 | one entry per room, in order, with the room's fields and the labels of its free slots today, equal to what `get_availability` reports for today |
| `Bookings.Conflicts` | backend/test_app.py:64-77 | defines a conflict as some stored booking of the same room that overlaps the requested interval |
| `Bookings.MaxCode` | backend/app.py:25 | the result is at least every stored code and, for a non-empty store, is one of them |
| `Bookings.FreshCode` | backend/app.py:130 | the new code differs from every code already stored |
| `Bookings.AppendKeepsInvariant` | backend/app.py:131-139 | appending a non-conflicting booking under an unused code keeps both the no-overlap and the unique-code invariants |
| `Bookings.RepeatConflicts` | backend/test_app.py:64-77 | an identical repeat of a stored non-empty booking is a conflict |
| `Bookings.BoundaryAndPartialExamples` | backend/app.py:59-62 | 09:00-10:00 and 10:00-11:00 on one room do not conflict; 10:00-11:00 and 10:30-11:30 do |
| `Bookings.InsertAsWritten` | backend/app.py:129-139 | the source's insert appends one booking of the room, with both UTC instants shifted to Asia/Kolkata local time and an unused code, leaving earlier rows untouched |
| `Bookings.AsWrittenDoubleBooks` | backend/app.py:129-139 | posting the same one-hour booking twice to the source's insert leaves two overlapping bookings of one room |
| `Bookings.BookingStore.CreateBooking` | backend/app.py:116-144 | rejects with Conflict exactly when the shifted interval overlaps a booking of the same room, leaving the store unchanged; otherwise appends one booking with the shifted times and an unused code and returns the code; the invariant is kept |
| `Bookings.RepeatScenario` | backend/test_app.py:64-77 | the first one-hour booking succeeds, its identical repeat is rejected with Conflict, and one booking remains |
| `Bookings.AdjacentScenario` | backend/app.py:59-62 | back-to-back bookings on one room both succeed with different codes, and two bookings remain |
| `Fixtures.FixtureRooms` | backend/add_fixtures.py:4-15 | there are ten fixtures and no two share a name |
| `Fixtures.HasName` | backend/add_fixtures.py:19 | defines the lookup by name as some row of the table carrying that name |
| `Fixtures.NewRoom` | backend/add_fixtures.py:21 | defines the new row as the given id with the fixture's name, capacity, projector and sound |
| `Fixtures.AddOne` | backend/add_fixtures.py:19-21 | defines one iteration: the table unchanged if the name is present, otherwise the table with one new row under the next id appended |
| `Fixtures.AddAll` | backend/add_fixtures.py:18-22 | defines the table after the loop as one iteration per fixture, applied in order |
| `Fixtures.MaxId` | backend/app.py:14 | the result is at least every id and, for a non-empty table, is one of them; it is 0 for an empty table |
| `Fixtures.NextId` | backend/app.py:14 | the id given to a new room is one more than the largest id in the table, or 1 for an empty table, as SQLite assigns rowids; so it is larger than every existing id |
| `Fixtures.AddAllPrefix` | backend/add_fixtures.py:18-23 | rooms already in the table are neither changed nor removed, and the run adds at most as many rooms as there are fixtures |
| `Fixtures.AddAllFirstOfName` | backend/add_fixtures.py:19-22 | each added room's name is absent from every row before it, those added earlier in the same run included, so a run adds at most one room per name |
| `Fixtures.AddAllFrame` | backend/add_fixtures.py:19-22 | every added room carries one fixture's name, capacity, projector and sound, for a fixture whose name was absent beforehand; ids stay unique |
| `Fixtures.AddAllKeepsIds` | backend/app.py:14 | seeding a table whose ids are unique keeps them unique |
| `Fixtures.AddAllCovers` | backend/add_fixtures.py:18-22 | afterwards every fixture name has at least one room |
| `Fixtures.AddAllPresent` | backend/add_fixtures.py:19-20 | a table that already has every fixture name is left unchanged |
| `Fixtures.AddAllIdempotent` | backend/add_fixtures.py:17-23 | running the seeding twice leaves the table exactly as after one run |
| `Fixtures.AddAllFresh` | backend/add_fixtures.py:18-22 | fixtures with distinct names, none yet in the table, are all added |
| `Fixtures.SeedEmptyTable` | backend/add_fixtures.py:4-15 | seeding an empty table adds all ten fixture rooms |
| `Fixtures.RoomTable.AddFixtures` | backend/add_fixtures.py:17-23 | the loop leaves the table as the seeding function gives it: old rows kept as a prefix, every fixture name present, no name added twice, a second run a no-op, ids unique |

## Left out

- HTTP plumbing is not modelled: Flask routing, JSON request parsing, `jsonify`, status codes, CORS and the success message text.
- Persistence is not modelled: the SQLAlchemy models, sessions and commits. The tables are in-memory sequences.
- `get_rooms`'s `ilike` name search is not modelled. `GetRooms` takes the room list the query already returned.
- `get_room` (`backend/app.py:78-82`) is not modelled beyond `FindRoom`, the primary-key lookup that `get_availability` also uses.
- Timestamp parsing and formatting (`strptime`) are not modelled. A malformed date is the `None` argument of `GetAvailability`. `create_booking` receives integer UTC instants.
- The clock (`datetime.now`) is a parameter: `GetRooms` takes `today`.
- The zone database (`pytz`) is not modelled. Asia/Kolkata is the fixed +05:30 shift. The zone database agrees from 1906-01-01 to 1941-10 and from 1945-10-15 on. Earlier and in between it gives other offsets, which the model does not reproduce: +05:53:28 until 1854-06-28, +05:53:20 until 1870, +05:21:10 until 1906-01-01, and +06:30 from 1941-10 to 1942-05-15 and from 1942-09 to 1945-10-15.
- `uuid.uuid4()` randomness is not modelled. The code is a natural number that no stored booking carries yet (one more than the largest). The model does not capture that the code is hard to guess.
- The `Booking.id` primary key is not modelled, because nothing in the core reads it.
- `create_booking` does not check that the room exists (SQLite does not enforce the foreign key by default), and neither does the model.
- `create_booking` accepts an end at or before the start, and so does the model. `RepeatConflicts` therefore holds only for non-empty bookings: an empty interval does not overlap itself, though it does overlap any booking that strictly contains its instant (so a zero-length booking at 09:30 blocks the 09:00 slot).
- Concurrent create requests are not modelled. `CreateBooking` is one atomic step.
- The `print` in `add_fixtures` is not modelled. It always claims ten rooms, whatever was added.
- The React front end is not modelled: it has no core logic.

## Findings

| source | as written | input that shows it | evidently intended | confidence | as-written member | corrected member |
|---|---|---|---|---|---|---|
| backend/app.py:129-139 | `create_booking` appends every booking without looking at the bookings already stored | the same one-hour booking on room 1 posted twice, as in `backend/test_app.py:64-77` | the second request is rejected (status 400) because it overlaps the first; no two bookings of one room overlap | high (not executed) | `Bookings.AsWrittenDoubleBooks` | `Bookings.BookingStore.CreateBooking` |
