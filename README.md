# AstroBookings: flight lifecycle and booking engine in Dafny

AstroBookings is a booking platform for scheduled rocket flights. This project
models its business core and the in-memory stores under it:

- **Rockets** are validated (a name that is not blank, a capacity from 1 to 10)
  and stored under a counter-based id `"r0"`, `"r1"`, ….
- **Flights** are validated when they are created, and their lifecycle state
  (SCHEDULED, CONFIRMED, SOLD_OUT, CANCELLED, DONE) is re-derived on every read.
  The derivation uses the clock, the rocket's capacity, the minimum passenger
  count and the number of bookings, and applies its rules in a fixed order:
  1. DONE once launch has passed;
  2. a CANCELLED flight stays CANCELLED;
  3. SCHEDULED when the rocket is unusable;
  4. CANCELLED in the last 7 days before launch when under the minimum;
  5. otherwise SOLD_OUT, CONFIRMED or SCHEDULED from the booking count.

  Flights can be cancelled by hand and listed when their launch is still ahead.
- **Bookings** are validated, admitted only while seats remain, priced with a
  0, 10 or 30 percent discount, stored, and then the flight's state is
  refreshed.
- **Query strings** of the HTTP layer (`k1=v1&k2=v2`) are split into a map.

Files:

- `models.dfy`: the entities. `Rocket` and `Booking` are values. `Flight` is a
  class whose `state` and `id` change in place. The module also has
  `Option`/`Result`/`Error` and the request records.
- `text.dfy`: Java's `trim`, `isEmpty` after trim, `String.split` with one
  separator character (trailing empty strings dropped), and the decimal
  rendering of a counter.
- `persistence.dfy`: the three repositories, each a class over a `map`.
  - A fresh-id method stands in for UUID generation.
  - `CountFor` is the number of bookings stored for a flight.
- `rockets.dfy`: `RocketService` and its validation.
- `flights.dfy`: the pure state derivation `DeriveState`, the flight request
  validation, and the `FlightService` class.
- `bookings.dfy`: the discount and price rules, the booking request
  validation, the admission decision, and the `BookingService` class.
- `query.dfy`: `parseQuery`.

The clock is an explicit `now` parameter in epoch seconds. The 7-day
cancellation window is 604800 seconds.

The model follows the code wherever the repository's tests disagree with it:

- After launch a CANCELLED flight reads as DONE (FlightService.java:185-192),
  while FlightServiceTest.java:179-189 expects it to stay CANCELLED.
- Booking eligibility is checked against the state as refreshed by
  `FlightService.findById` (BookingService.java:53, FlightService.java:97), not
  the stored one. So the booking tests whose flight launches within the hour
  with a minimum of 2 (BookingServiceTest.java:131-150) meet a flight the
  7-day rule has already cancelled, so they would be refused as not eligible.
- Rocket creation takes a `Rocket` and does not trim its name
  (RocketService.java:29-48). The tests call a `create(CreateRocketRequest)`
  that trims.

## Model

| member | source | states |
|---|---|---|
| `Text.Trim` | src/main/java/academy/aicode/astrobookings/business/FlightService.java:38 | Java `trim`: the result is empty exactly when every character is at most U+0020; otherwise it neither starts nor ends with such a character |
| `Text.TrimIsSlice` | src/main/java/academy/aicode/astrobookings/business/FlightService.java:38 | the trimmed string is a slice of the input with only characters at most U+0020 before and after it; with the ends `Trim` ensures, that is exactly the input with those characters removed from both ends |
| `Text.TrimIdempotent` | src/main/java/academy/aicode/astrobookings/business/FlightService.java:199-207 | trimming an already trimmed string changes nothing: the rocket id `create` stores trimmed is the one the refresh trims again |
| `Text.Split` | src/main/java/academy/aicode/astrobookings/presentation/BaseHandler.java:51-53 | Java `split` on one character: the whole string as the only part when the separator does not occur; otherwise the fields between separators with trailing empty strings removed; no part contains the separator |
| `Text.JoinFields` | src/main/java/academy/aicode/astrobookings/presentation/BaseHandler.java:51-53 | joining the fields of a string with the separator gives the string back |
| `Text.FieldsJoin` | src/main/java/academy/aicode/astrobookings/presentation/BaseHandler.java:51-53 | splitting a join of separator-free parts gives the parts back |
| `Text.DecimalString` | src/main/java/academy/aicode/astrobookings/persistence/RocketRepository.java:24 | the decimal form of a counter is a non-empty string of digits ending in the last digit, with two or more digits exactly from 10 upwards |
| `Text.DecimalStringInjective` | src/main/java/academy/aicode/astrobookings/persistence/RocketRepository.java:24 | two counters with the same decimal form are equal |
| `Persistence.FreshId` | src/main/java/academy/aicode/astrobookings/persistence/BookingRepository.java:27 | the generated id is not among the ids already taken |
| `Persistence.CountAfterPut` | src/main/java/academy/aicode/astrobookings/persistence/BookingRepository.java:68-76 | storing a booking under a new key raises its own flight's count by exactly one and leaves every other flight's count unchanged; a replacement raises no count by more than one |
| `Persistence.GeneratedId` | src/main/java/academy/aicode/astrobookings/persistence/RocketRepository.java:24 | a generated rocket id is `r` followed by at least one digit |
| `Persistence.GeneratedIdsDistinct` | src/main/java/academy/aicode/astrobookings/persistence/RocketRepository.java:24 | different counter values give different rocket ids, so consecutive id-less saves get distinct ids |
| `Persistence.RocketRepository.Save` | src/main/java/academy/aicode/astrobookings/persistence/RocketRepository.java:22-28 | a provided id is kept and the counter does not move; an id-less rocket gets `"r" + nextId` and the counter advances by one; the map then sends the id to the rocket and nothing else changes |
| `Persistence.RocketRepository.FindById` | src/main/java/academy/aicode/astrobookings/business/RocketService.java:20-22 | the stored rocket for a known id, and nothing for a null or unknown id |
| `Persistence.RocketRepository.FindAll` | src/main/java/academy/aicode/astrobookings/business/RocketService.java:16-18 | one element per stored rocket, every stored rocket listed, nothing else |
| `Persistence.FlightRepository.Save` | src/main/java/academy/aicode/astrobookings/persistence/FlightRepository.java:24-30 | a provided id is kept; an id-less flight gets an id not yet in the store; the store then maps that id to the flight and nothing else changes |
| `Persistence.FlightRepository.FindById` | src/main/java/academy/aicode/astrobookings/persistence/FlightRepository.java:38-40 | the stored flight exactly when the id is stored, null otherwise |
| `Persistence.FlightRepository.FindAll` | src/main/java/academy/aicode/astrobookings/persistence/FlightRepository.java:45-47 | one entry per stored id, every stored flight listed once, no other flight, so an empty store gives an empty list |
| `Persistence.BookingRepository.Save` | src/main/java/academy/aicode/astrobookings/persistence/BookingRepository.java:25-34 | a provided id is kept and a missing one is fresh; a missing createdAt becomes `now` and a present one is kept; no other field changes; the store then maps the id to the booking and nothing else changes |
| `Persistence.BookingRepository.FindById` | src/main/java/academy/aicode/astrobookings/persistence/BookingRepository.java:42-44 | the stored booking exactly when the id is stored, nothing otherwise |
| `Persistence.BookingRepository.FindByFlightId` | src/main/java/academy/aicode/astrobookings/persistence/BookingRepository.java:52-60 | exactly the stored bookings of that flight, each once; the length is the flight's booking count |
| `Persistence.BookingRepository.CountByFlightId` | src/main/java/academy/aicode/astrobookings/persistence/BookingRepository.java:68-76 | the number of stored bookings of that flight, the same count that bounds `FindByFlightId` |
| `Rockets.ValidateRocket` | src/main/java/academy/aicode/astrobookings/business/RocketService.java:37-48 | no error exactly for a rocket with a non-blank name and a capacity from 1 to 10; a missing rocket and then a missing or blank name are reported first, with their messages; a named rocket without a capacity gives the null-pointer error; the capacity message is given exactly for a named rocket with a capacity outside 1..10 |
| `Rockets.AcceptedCapacities` | src/main/java/academy/aicode/astrobookings/business/RocketService.java:44-46 | for a named rocket, the accepted capacities are exactly 1 to 10 |
| `Rockets.RocketService.FindById` | src/main/java/academy/aicode/astrobookings/business/RocketService.java:20-22 | the stored rocket for a known id, and nothing for a null or unknown id |
| `Rockets.RocketService.FindAll` | src/main/java/academy/aicode/astrobookings/business/RocketService.java:16-18 | as many rockets as are stored, and exactly the stored ones |
| `Rockets.RocketService.Create` | src/main/java/academy/aicode/astrobookings/business/RocketService.java:29-35 | a failed validation returns its error and stores nothing; otherwise the rocket is returned as the repository saved it |
| `Flights.RocketCapacity` | src/main/java/academy/aicode/astrobookings/business/FlightService.java:199-209 | a missing or blank rocket id finds no capacity; otherwise the capacity of the rocket stored under the trimmed id, and none when no such rocket is stored |
| `Flights.DeriveState` | src/main/java/academy/aicode/astrobookings/business/FlightService.java:183-251 | the refreshed state, one if-and-only-if per state: DONE exactly when launch has passed; CANCELLED exactly before launch when already cancelled or, with a usable rocket, under the minimum in the last 7 days; SOLD_OUT and CONFIRMED exactly under their count conditions; SCHEDULED in every other case |
| `Flights.DeriveStateIdempotent` | src/main/java/academy/aicode/astrobookings/business/FlightService.java:233-251 | a second refresh with the same clock and booking count changes nothing |
| `Flights.UnusableRocketIgnoresBookings` | src/main/java/academy/aicode/astrobookings/business/FlightService.java:199-214 | with no usable rocket the booking count does not matter, and before launch a flight that is not cancelled falls back to SCHEDULED |
| `Flights.UpcomingNeverDone` | src/main/java/academy/aicode/astrobookings/business/FlightService.java:185-231 | a flight whose launch is ahead is never DONE; outside the last 7 days it is CANCELLED only if it already was |
| `Flights.FlightRequestError` | src/main/java/academy/aicode/astrobookings/business/FlightService.java:34-71 | a request is accepted exactly when all eight checks pass; every failure is an illegal argument; each message is given exactly when every earlier check passed and its own fails (the first three here, the last five in `LaterFlightChecksOrdered`) |
| `Flights.LaterFlightChecksOrdered` | src/main/java/academy/aicode/astrobookings/business/FlightService.java:48-71 | for a request naming a stored rocket: the missing-launch, past-launch, base-price, rocket-capacity and minimum-passengers messages are each given exactly when the checks before it pass and its own fails |
| `Flights.MinimumCheckedLast` | src/main/java/academy/aicode/astrobookings/business/FlightService.java:68-71 | a request that passes every other check but has a minimum of 0 is rejected with the minimum-passengers message |
| `Flights.CreatedFlightFindsItsRocket` | src/main/java/academy/aicode/astrobookings/business/FlightService.java:199-209 | the rocket id an accepted request stores, already trimmed, leads the refresh to the rocket `create` validated, with a usable capacity |
| `Flights.FlightService.DesiredState` | src/main/java/academy/aicode/astrobookings/business/FlightService.java:183-240 | the state the refresh settles on is the derived state for the flight's stored rocket, minimum, launch and booking count |
| `Flights.FlightService.DesiredFromBookings` | src/main/java/academy/aicode/astrobookings/business/FlightService.java:216-240 | for a flight before launch, not cancelled and with a usable rocket, the count-based outcome equals the derived state |
| `Flights.FlightService.RefreshStateOnRead` | src/main/java/academy/aicode/astrobookings/business/FlightService.java:177-252 | the flight's new state is the derived state of its old state at `now`; only the state field may change |
| `Flights.FlightService.Create` | src/main/java/academy/aicode/astrobookings/business/FlightService.java:33-83 | a rejected request returns the first failing check's error and stores nothing; an accepted one stores a fresh flight under a new id with the trimmed rocket id, the given launch, price and minimum, and state SCHEDULED |
| `Flights.FlightService.FindById` | src/main/java/academy/aicode/astrobookings/business/FlightService.java:91-99 | the stored flight or null; a found flight is refreshed and no other flight changes |
| `Flights.FlightService.RefreshAndTest` | src/main/java/academy/aicode/astrobookings/business/FlightService.java:113-124 | one flight is refreshed, and it is kept exactly when its launch is ahead and it passes the state filter |
| `Flights.FlightService.RefreshAndSelect` | src/main/java/academy/aicode/astrobookings/business/FlightService.java:112-125 | every listed flight is refreshed, and the output holds exactly the upcoming ones that pass the filter, each once |
| `Flights.FlightService.FindFutureFlights` | src/main/java/academy/aicode/astrobookings/business/FlightService.java:108-128 | every stored flight is refreshed; the result is exactly the stored flights with launch strictly after now and, with a filter, that state; no flight appears twice and none is DONE |
| `Flights.FlightService.CancelStored` | src/main/java/academy/aicode/astrobookings/business/FlightService.java:149-161 | after the refresh, a DONE flight gives the illegal-state error and stays DONE; any other flight ends CANCELLED and is returned, an already cancelled one unchanged; the store keeps the same entries |
| `Flights.FlightService.CancelById` | src/main/java/academy/aicode/astrobookings/business/FlightService.java:138-170 | a null or blank id is an illegal argument and an unknown id gives null, both changing nothing; otherwise the DONE-after-refresh error, or the flight ends CANCELLED; no other flight changes |
| `Bookings.ComputeDiscountPercent` | src/main/java/academy/aicode/astrobookings/business/BookingService.java:134-144 | the discount is 0, 10 or 30; it is 0 exactly for the last seat, and 30 exactly for the seat that reaches the minimum when that is not the last seat |
| `Bookings.FinalPrice` | src/main/java/academy/aicode/astrobookings/business/BookingService.java:82 | the base price less the discount share; for a positive base price and a discount below 100 the price is positive and at most the base, and equal to it exactly without discount |
| `Bookings.FinalPriceBounds` | src/main/java/academy/aicode/astrobookings/business/BookingService.java:74-82 | for a positive base price the final price is positive and at most the base price, and equals it exactly for the last seat |
| `Bookings.Trimmed` | src/main/java/academy/aicode/astrobookings/business/BookingService.java:38-39 | a value is present exactly when the input is present and not blank, and it is the trimmed, non-empty input |
| `Bookings.CheckRequest` | src/main/java/academy/aicode/astrobookings/business/BookingService.java:34-51 | accepted exactly when the request is present and its flight id, name and document are not blank, giving their trimmed forms; otherwise an illegal argument, with the missing-request and then the missing-flight-id messages first |
| `Bookings.PassengerChecksOrdered` | src/main/java/academy/aicode/astrobookings/business/BookingService.java:43-51 | with a valid flight id, a blank name is reported before the document, and a blank document only once the name is present |
| `Bookings.Admission` | src/main/java/academy/aicode/astrobookings/business/BookingService.java:58-82 | a seat is granted exactly when the state is neither CANCELLED nor SOLD_OUT, the capacity is usable, the count is below it and the base price is positive; the quote has the discount for seat count+1 and the final price for that discount |
| `Bookings.AdmissionRefusals` | src/main/java/academy/aicode/astrobookings/business/BookingService.java:58-80 | the not-eligible, rocket-capacity, sold-out and base-price errors are each given exactly when the checks before it pass and its own fails |
| `Bookings.AdmissionKeepsCapacity` | src/main/java/academy/aicode/astrobookings/business/BookingService.java:62-75 | an admitted booking never takes the count above capacity, and it is free of discount exactly when it takes the last seat |
| `Bookings.LaunchedFlightAdmitted` | src/main/java/academy/aicode/astrobookings/business/BookingService.java:58-60 | a DONE flight with free seats and a positive price passes the eligibility check |
| `Bookings.SoldOutBeforePrice` | src/main/java/academy/aicode/astrobookings/business/BookingService.java:70-80 | a full flight is reported as sold out even when its base price is missing |
| `Bookings.StoredCapacity` | src/main/java/academy/aicode/astrobookings/business/BookingService.java:62-63 | the capacity of the rocket stored under the flight's rocket id exactly as written, untrimmed |
| `Bookings.BookingService.Book` | src/main/java/academy/aicode/astrobookings/business/BookingService.java:84-95 | exactly one booking is added under a new id, with the passenger's fields, the quote and `now`; the flight's count rises by one and the flight is refreshed |
| `Bookings.BookingService.Admit` | src/main/java/academy/aicode/astrobookings/business/BookingService.java:58-96 | a refused admission returns its error and changes nothing; an admitted one stores one booking with the discount and price, leaves the count within capacity and refreshes the flight |
| `Bookings.BookingService.BookFlight` | src/main/java/academy/aicode/astrobookings/business/BookingService.java:53-96 | an unknown flight is an illegal argument that changes nothing; otherwise the flight is refreshed first and the admission is decided on the refreshed state, with the outcome of `Admit` |
| `Bookings.BookingService.Create` | src/main/java/academy/aicode/astrobookings/business/BookingService.java:33-97 | request errors come first and change nothing; then an unknown flight; then the admission on the refreshed flight: either its error with no booking stored, or exactly one new booking and a booking count within capacity |
| `Bookings.BookingService.FindById` | src/main/java/academy/aicode/astrobookings/business/BookingService.java:105-110 | a null or blank id is an illegal argument; otherwise the booking stored under the trimmed id, if any |
| `Bookings.BookingService.FindByFlightId` | src/main/java/academy/aicode/astrobookings/business/BookingService.java:118-129 | a blank id and an unknown flight are illegal arguments that change nothing; otherwise the flight is refreshed and the result is exactly its bookings, each once |
| `Query.KeyValue` | src/main/java/academy/aicode/astrobookings/presentation/BaseHandler.java:53-54 | a piece gives a pair exactly when it splits on '=' into two parts, and neither part contains '=' |
| `Query.CollectLastWins` | src/main/java/academy/aicode/astrobookings/presentation/BaseHandler.java:52-56 | a key is in the map exactly when some kept piece has it, and its value is the one of the last such piece |
| `Query.ParseQuery` | src/main/java/academy/aicode/astrobookings/presentation/BaseHandler.java:48-60 | a null query gives the empty map; otherwise the map collected from the '&'-pieces in order |
| `Query.KeyValueRoundTrip` | src/main/java/academy/aicode/astrobookings/presentation/BaseHandler.java:53-55 | `key=value` with a non-empty value comes back as that pair verbatim, so `=v` is kept under the empty key |
| `Query.DroppedWithoutSeparator` | src/main/java/academy/aicode/astrobookings/presentation/BaseHandler.java:53-54 | a piece without '=' is dropped |
| `Query.DroppedWithoutValue` | src/main/java/academy/aicode/astrobookings/presentation/BaseHandler.java:53-54 | `k=` is dropped, because `split` removes the trailing empty value |
| `Query.DroppedWithThreeParts` | src/main/java/academy/aicode/astrobookings/presentation/BaseHandler.java:53-54 | `a=b=c` is dropped |
| `Query.TrailingSeparatorIgnored` | src/main/java/academy/aicode/astrobookings/presentation/BaseHandler.java:53-55 | `a=b=` is kept as the pair (a, b) |

## Left out

- Logging and the simulated notifications and refunds (`LOGGER.log` in
  FlightService and BookingService) are observability only and are not modelled.
- Concurrency is not modelled: the store is sequential. That leaves out the
  `ConcurrentHashMap` backing and the race between counting bookings and
  saving one (BookingService.java:68-92).
- Prices are reals, not IEEE doubles. Java `int` overflow of counts and
  capacities is not modelled.
- `UUID.randomUUID()` is replaced by `FreshId`, which returns some id not yet
  in the store; the UUID format is not modelled.
- `Instant.now()` is replaced by the `now` parameter. Each operation reads the
  clock once. The two separate reads in `refreshStateOnRead`
  (FlightService.java:186 and 219) and the ones in `BookingService.create` and
  `BookingRepository.save` see the same instant.
- `Booking` and `Rocket` are values, not shared mutable objects. `save` returns
  the completed value instead of setting the id on the caller's object.
- The static maps shared by every repository instance are modelled as one
  shared instance. The `Valid` predicates of the services require that sharing.
- Trim: its own contract gives the empty case and the non-trimmable ends;
  that the result is the slice between the trimmed ends is stated by the
  lemma `TrimIsSlice`, which keeps every caller's proof small.
- FlightRequestError: its own contract orders the first three messages; the
  other five are stated by `LaterFlightChecksOrdered`, for the same reason.
- Admission: its own contract gives the granted case and the quote; the four
  refusal messages are stated by `AdmissionRefusals`, for the same reason.
- RefreshStateOnRead: requires a non-null flight with an id. The null guard
  (FlightService.java:178-180) is not modelled, because every caller passes a
  stored flight.
- FlightService.FindById: takes a non-null id. A null id would make the map
  lookup throw, and every caller passes a checked id.
- RefreshAndSelect and FindFutureFlights: state membership and distinctness
  of the result, not its order. The order is the hash map's iteration order.
- BookingRepository.FindByFlightId, FlightRepository.FindAll and
  RocketRepository.FindAll: state contents, not order, for the same reason.
- `RocketRepository.findById` and `findAll` are called by RocketService but are
  not in RocketRepository.java. They are modelled as a plain map lookup and a
  listing of the map's values.
- A rocket with a null capacity makes `validateRocket` throw
  (RocketService.java:44). The model returns a `NullPointer` error there.
- A flight whose launch has passed reads as DONE, and DONE is not rejected by
  the eligibility check (BookingService.java:58-60). So a launched flight with
  free seats and a valid price still accepts bookings
  (`Bookings.LaunchedFlightAdmitted`). The model keeps this behaviour.
- `findAll` returning a fresh list is implicit: a Dafny sequence is a value,
  so changing it cannot change the store.
- The HTTP handlers, JSON mapping, DTO getters and setters, and the server
  entry points are not part of this model.
