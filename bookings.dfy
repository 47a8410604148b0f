/** Booking creation: request validation, the capacity rule, seat pricing, and
    the listing of a flight's bookings. */
module Bookings {
  import opened Models
  import opened Text
  import opened Persistence
  import opened Rockets
  import opened Flights

  /** The discount, in percent, of the `bookingNumber`-th seat of a flight:
      none for the last seat, 30 for the seat that reaches the minimum, 10
      for every other seat. */
  function ComputeDiscountPercent(bookingNumber: int, capacity: int, minimum: Option<int>): (d: int)
    ensures d == 0 || d == 10 || d == 30
    ensures d == 0 <==> bookingNumber == capacity
    ensures d == 30 <==> bookingNumber != capacity && minimum == Some(bookingNumber)
  {
    if bookingNumber == capacity then 0
    else if minimum.Some? && bookingNumber == minimum.value then 30
    else 10
  }

  /** The price paid for a seat: the base price less the discount. A positive
      base price with a discount below 100 percent gives a positive price no
      higher than the base, equal to it exactly when there is no discount. */
  function FinalPrice(basePrice: real, discountPercent: int): (price: real)
    ensures price == basePrice - basePrice * discountPercent as real / 100.0
    ensures basePrice > 0.0 && 0 <= discountPercent < 100 ==> 0.0 < price <= basePrice
    ensures basePrice > 0.0 ==> (price == basePrice <==> discountPercent == 0)
  {
    basePrice * (100 - discountPercent) as real / 100.0
  }

  /** A discounted seat never costs more than the base price nor nothing at
      all, and only the last seat is sold at the full base price. */
  lemma FinalPriceBounds(basePrice: real, bookingNumber: int, capacity: int, minimum: Option<int>)
    requires basePrice > 0.0
    ensures var price := FinalPrice(basePrice, ComputeDiscountPercent(bookingNumber, capacity, minimum));
      && 0.0 < price <= basePrice
      && (price == basePrice <==> bookingNumber == capacity)
  {
    var d := ComputeDiscountPercent(bookingNumber, capacity, minimum);
    assert (100 - d) as real / 100.0 <= 1.0;
    if d != 0 {
      assert (100 - d) as real / 100.0 < 1.0;
    }
  }

  /** A booking request with its three fields present and trimmed. */
  datatype Passenger = Passenger(flightId: string, passengerName: string, passengerDocument: string)

  /** A present string that is not blank, trimmed; nothing otherwise. */
  function Trimmed(s: Option<string>): (r: Option<string>)
    ensures r.Some? <==> s.Some? && !IsBlank(s.value)
    ensures r.Some? ==> r.value == Trim(s.value) && r.value != []
  {
    if s.None? || IsBlank(s.value) then None else Some(Trim(s.value))
  }

  /** The request checks, in order: a body, then a flight id, a passenger name
      and a passenger document that are not blank once trimmed. */
  function CheckRequest(request: Option<CreateBookingRequest>): (r: Result<Passenger>)
    ensures r.Ok? <==>
      && request.Some?
      && Trimmed(request.value.flightId).Some?
      && Trimmed(request.value.passengerName).Some?
      && Trimmed(request.value.passengerDocument).Some?
    ensures r.Ok? ==> r.value == Passenger(Trim(request.value.flightId.value),
                                           Trim(request.value.passengerName.value),
                                           Trim(request.value.passengerDocument.value))
    ensures request.None? ==> r == Err(IllegalArgument("Request body must be provided"))
    ensures request.Some? && Trimmed(request.value.flightId).None? ==>
      r == Err(IllegalArgument("flightId must be provided"))
    ensures r.Err? ==> r.error.IllegalArgument?
  {
    if request.None? then Err(IllegalArgument("Request body must be provided"))
    else
      var q := request.value;
      var flightId := Trimmed(q.flightId);
      var name := Trimmed(q.passengerName);
      var document := Trimmed(q.passengerDocument);
      if flightId.None? then Err(IllegalArgument("flightId must be provided"))
      else if name.None? then Err(IllegalArgument("passengerName must be provided"))
      else if document.None? then Err(IllegalArgument("passengerDocument must be provided"))
      else Ok(Passenger(flightId.value, name.value, document.value))
  }

  /** A missing document is reported only when the flight id and the name are
      both usable, and a blank name hides a missing document. */
  lemma PassengerChecksOrdered(flightId: string, name: Option<string>, document: Option<string>)
    requires !IsBlank(flightId)
    ensures Trimmed(name).None? ==>
      CheckRequest(Some(CreateBookingRequest(Some(flightId), name, document))) ==
        Err(IllegalArgument("passengerName must be provided"))
    ensures Trimmed(name).Some? && Trimmed(document).None? ==>
      CheckRequest(Some(CreateBookingRequest(Some(flightId), name, document))) ==
        Err(IllegalArgument("passengerDocument must be provided"))
  {
  }

  /** The discount and price of an admitted seat. */
  datatype Quote = Quote(discountPercent: int, finalPrice: real)

  /** Whether a flight in the given (refreshed) state, with the given rocket
      capacity, booking count, minimum and base price, takes one more booking,
      and at what price. The checks run in order: eligibility, rocket
      capacity, a free seat, then the base price. */
  function Admission(state: FlightState, capacity: Option<int>, count: int, minimum: Option<int>,
                     basePrice: Option<real>): (r: Result<Quote>)
    ensures r.Ok? <==>
      && state != Cancelled && state != SoldOut
      && Usable(capacity) && count < capacity.value
      && basePrice.Some? && basePrice.value > 0.0
    ensures r.Ok? ==>
      && r.value.discountPercent == ComputeDiscountPercent(count + 1, capacity.value, minimum)
      && r.value.finalPrice == FinalPrice(basePrice.value, r.value.discountPercent)
  {
    if state == Cancelled || state == SoldOut then Err(Conflict("flight is not eligible for booking"))
    else if capacity.None? || capacity.value < 1 then Err(IllegalArgument("rocket capacity is invalid"))
    else if count >= capacity.value then Err(Conflict("flight is sold out"))
    else
      var d := ComputeDiscountPercent(count + 1, capacity.value, minimum);
      if basePrice.None? || !(basePrice.value > 0.0) then Err(IllegalArgument("flight basePrice is invalid"))
      else Ok(Quote(d, FinalPrice(basePrice.value, d)))
  }

  /** The four refusals, in the order the checks run: each error is given
      exactly when every earlier check passed and its own check fails. */
  lemma AdmissionRefusals(state: FlightState, capacity: Option<int>, count: int, minimum: Option<int>,
                          basePrice: Option<real>)
    ensures Admission(state, capacity, count, minimum, basePrice) ==
              Err(Conflict("flight is not eligible for booking")) <==>
            state == Cancelled || state == SoldOut
    ensures Admission(state, capacity, count, minimum, basePrice) ==
              Err(IllegalArgument("rocket capacity is invalid")) <==>
            state != Cancelled && state != SoldOut && !Usable(capacity)
    ensures Admission(state, capacity, count, minimum, basePrice) ==
              Err(Conflict("flight is sold out")) <==>
            state != Cancelled && state != SoldOut && Usable(capacity) && count >= capacity.value
    ensures Admission(state, capacity, count, minimum, basePrice) ==
              Err(IllegalArgument("flight basePrice is invalid")) <==>
            && state != Cancelled && state != SoldOut && Usable(capacity) && count < capacity.value
            && !(basePrice.Some? && basePrice.value > 0.0)
  {
  }

  /** An admitted booking never takes the count above the capacity, and the
      booking that fills the flight is the one sold without discount. */
  lemma AdmissionKeepsCapacity(state: FlightState, capacity: Option<int>, count: int, minimum: Option<int>,
                               basePrice: Option<real>)
    requires Admission(state, capacity, count, minimum, basePrice).Ok?
    ensures count + 1 <= capacity.value
    ensures Admission(state, capacity, count, minimum, basePrice).value.discountPercent == 0 <==>
      count + 1 == capacity.value
  {
  }

  /** Only CANCELLED and SOLD_OUT flights are refused: a flight whose launch
      has passed (DONE once refreshed) still takes a booking when it has a
      usable rocket, a free seat and a positive base price. */
  lemma LaunchedFlightAdmitted(capacity: int, count: int, minimum: Option<int>, basePrice: real)
    requires 0 <= count < capacity && basePrice > 0.0
    ensures Admission(Done, Some(capacity), count, minimum, Some(basePrice)).Ok?
  {
  }

  /** A flight with no seat left is reported sold out even when its base price
      is also unusable: the price is checked last. */
  lemma SoldOutBeforePrice(state: FlightState, capacity: int, count: int, minimum: Option<int>)
    requires state != Cancelled && state != SoldOut
    requires 1 <= capacity <= count
    ensures Admission(state, Some(capacity), count, minimum, None) == Err(Conflict("flight is sold out"))
  {
  }

  /** The capacity of the rocket with exactly the id the flight stores (no
      trimming), as `create` looks it up. */
  function StoredCapacity(rocketId: Option<string>, rockets: map<string, Rocket>): (r: Option<int>)
    ensures r.Some? ==> rocketId.Some? && rocketId.value in rockets && r == rockets[rocketId.value].capacity
    ensures rocketId.Some? && rocketId.value in rockets ==> r == rockets[rocketId.value].capacity
  {
    if rocketId.Some? && rocketId.value in rockets then rockets[rocketId.value].capacity else None
  }

  class BookingService {
    const bookingRepository: BookingRepository
    const flightService: FlightService
    const rocketService: RocketService

    constructor (bookingRepository: BookingRepository, flightService: FlightService, rocketService: RocketService)
      ensures this.bookingRepository == bookingRepository
      ensures this.flightService == flightService
      ensures this.rocketService == rocketService
    {
      this.bookingRepository := bookingRepository;
      this.flightService := flightService;
      this.rocketService := rocketService;
    }

    /** The services share the stores: the flight service counts bookings in
        this service's booking store and reads the same rockets. */
    ghost predicate Valid()
      reads this, flightService, flightService.flightRepository, flightService.flightRepository.flights.Values`id
      reads flightService.bookingRepository, flightService.rocketService
    {
      && flightService.Valid()
      && flightService.bookingRepository == bookingRepository
      && flightService.rocketService.repository == rocketService.repository
    }

    /** Stores the admitted booking for `flight` and refreshes the flight,
        whose state now also counts the new booking. */
    method Book(flight: Flight, passenger: Passenger, quote: Quote, now: int) returns (saved: Booking)
      requires Valid()
      requires flight.id == Some(passenger.flightId)
      modifies bookingRepository, flight`state
      ensures Valid()
      ensures saved == Booking(saved.id, passenger.flightId, passenger.passengerName, passenger.passengerDocument,
                               quote.discountPercent, quote.finalPrice, Some(now))
      ensures saved.id.Some? && saved.id.value !in old(bookingRepository.bookings)
      ensures bookingRepository.bookings == old(bookingRepository.bookings)[saved.id.value := saved]
      ensures CountFor(bookingRepository.bookings, passenger.flightId) ==
              old(CountFor(bookingRepository.bookings, passenger.flightId)) + 1
      ensures flight.state == flightService.Derived(flight, old(flight.state), now)
    {
      var booking := Booking(None, passenger.flightId, passenger.passengerName, passenger.passengerDocument,
                             quote.discountPercent, quote.finalPrice, Some(now));
      saved := bookingRepository.Save(booking, now);
      CountAfterPut(old(bookingRepository.bookings), saved.id.value, saved, passenger.flightId);
      ghost var refreshed := flightService.Derived(flight, flight.state, now);
      flightService.RefreshStateOnRead(flight, now);
      assert flight.state == refreshed;
    }

    /** The part of `create` after the flight has been read and refreshed:
        admits and prices one more seat on it from its current state, or
        reports why not, and on admission stores the booking. */
    method Admit(flight: Flight, passenger: Passenger, now: int) returns (r: Result<Booking>)
      requires Valid()
      requires flight.id == Some(passenger.flightId)
      modifies bookingRepository, flight`state
      ensures Valid()
      ensures var capacity := StoredCapacity(flight.rocketId, rocketService.repository.rockets);
        var quote := Admission(old(flight.state), capacity, old(CountFor(bookingRepository.bookings, passenger.flightId)),
                               flight.minimumPassengers, flight.basePrice);
        && (quote.Err? ==>
              && r == Err(quote.error)
              && bookingRepository.bookings == old(bookingRepository.bookings)
              && flight.state == old(flight.state))
        && (quote.Ok? ==>
              && r.Ok?
              && r.value == Booking(r.value.id, passenger.flightId, passenger.passengerName, passenger.passengerDocument,
                                    quote.value.discountPercent, quote.value.finalPrice, Some(now))
              && r.value.id.Some? && r.value.id.value !in old(bookingRepository.bookings)
              && bookingRepository.bookings == old(bookingRepository.bookings)[r.value.id.value := r.value]
              && CountFor(bookingRepository.bookings, passenger.flightId) <= capacity.value
              && flight.state == flightService.Derived(flight, old(flight.state), now))
    {
      var rocket := rocketService.FindById(flight.rocketId);
      var capacity := if rocket.None? then None else rocket.value.capacity;
      var count := bookingRepository.CountByFlightId(passenger.flightId);
      var quote := Admission(flight.state, capacity, count, flight.minimumPassengers, flight.basePrice);
      if quote.Err? {
        return Err(quote.error);
      }
      AdmissionKeepsCapacity(flight.state, capacity, count, flight.minimumPassengers, flight.basePrice);
      var saved := Book(flight, passenger, quote.value, now);
      return Ok(saved);
    }

    /** The part of `create` after the request checks: reads the flight
        (refreshing its state), rejects an unknown flight, then admits. */
    method BookFlight(passenger: Passenger, now: int) returns (r: Result<Booking>)
      requires Valid()
      modifies bookingRepository, flightService.flightRepository.flights.Values`state
      ensures Valid()
      ensures passenger.flightId !in flightService.flightRepository.flights ==>
        && r == Err(IllegalArgument("flightId does not exist"))
        && bookingRepository.bookings == old(bookingRepository.bookings)
        && forall f :: f in flightService.flightRepository.flights.Values ==> f.state == old(f.state)
      ensures passenger.flightId in flightService.flightRepository.flights ==>
        var flight := flightService.flightRepository.flights[passenger.flightId];
        var refreshed := old(flightService.Derived(flight, flight.state, now));
        var capacity := StoredCapacity(flight.rocketId, rocketService.repository.rockets);
        var quote := Admission(refreshed, capacity, old(CountFor(bookingRepository.bookings, passenger.flightId)),
                               flight.minimumPassengers, flight.basePrice);
        && (forall f :: f in flightService.flightRepository.flights.Values && f != flight ==> f.state == old(f.state))
        && (quote.Err? ==>
              && r == Err(quote.error)
              && bookingRepository.bookings == old(bookingRepository.bookings)
              && flight.state == refreshed)
        && (quote.Ok? ==>
              && r.Ok?
              && r.value == Booking(r.value.id, passenger.flightId, passenger.passengerName, passenger.passengerDocument,
                                    quote.value.discountPercent, quote.value.finalPrice, Some(now))
              && r.value.id.Some? && r.value.id.value !in old(bookingRepository.bookings)
              && bookingRepository.bookings == old(bookingRepository.bookings)[r.value.id.value := r.value]
              && CountFor(bookingRepository.bookings, passenger.flightId) <= capacity.value
              && flight.state == flightService.Derived(flight, refreshed, now))
    {
      var flight := flightService.FindById(passenger.flightId, now);
      if flight == null {
        return Err(IllegalArgument("flightId does not exist"));
      }
      r := Admit(flight, passenger, now);
    }

    /** Validates the request, reads the flight (refreshing its state), admits
        and prices one more seat, stores the booking and refreshes the flight
        again. Every rejection leaves the booking store as it was. */
    method Create(request: Option<CreateBookingRequest>, now: int) returns (r: Result<Booking>)
      requires Valid()
      modifies bookingRepository, flightService.flightRepository.flights.Values`state
      ensures Valid()
      ensures CheckRequest(request).Err? ==>
        && r == Err(CheckRequest(request).error)
        && bookingRepository.bookings == old(bookingRepository.bookings)
        && forall f :: f in flightService.flightRepository.flights.Values ==> f.state == old(f.state)
      ensures CheckRequest(request).Ok? && CheckRequest(request).value.flightId !in flightService.flightRepository.flights ==>
        && r == Err(IllegalArgument("flightId does not exist"))
        && bookingRepository.bookings == old(bookingRepository.bookings)
        && forall f :: f in flightService.flightRepository.flights.Values ==> f.state == old(f.state)
      ensures CheckRequest(request).Ok? && CheckRequest(request).value.flightId in flightService.flightRepository.flights ==>
        var passenger := CheckRequest(request).value;
        var flight := flightService.flightRepository.flights[passenger.flightId];
        var refreshed := old(flightService.Derived(flight, flight.state, now));
        var capacity := StoredCapacity(flight.rocketId, rocketService.repository.rockets);
        var quote := Admission(refreshed, capacity, old(CountFor(bookingRepository.bookings, passenger.flightId)),
                               flight.minimumPassengers, flight.basePrice);
        && (forall f :: f in flightService.flightRepository.flights.Values && f != flight ==> f.state == old(f.state))
        && (quote.Err? ==>
              && r == Err(quote.error)
              && bookingRepository.bookings == old(bookingRepository.bookings)
              && flight.state == refreshed)
        && (quote.Ok? ==>
              && r.Ok?
              && r.value == Booking(r.value.id, passenger.flightId, passenger.passengerName, passenger.passengerDocument,
                                    quote.value.discountPercent, quote.value.finalPrice, Some(now))
              && r.value.id.Some? && r.value.id.value !in old(bookingRepository.bookings)
              && bookingRepository.bookings == old(bookingRepository.bookings)[r.value.id.value := r.value]
              && CountFor(bookingRepository.bookings, passenger.flightId) <= capacity.value
              && flight.state == flightService.Derived(flight, refreshed, now))
    {
      var checked := CheckRequest(request);
      if checked.Err? {
        return Err(checked.error);
      }
      r := BookFlight(checked.value, now);
    }

    /** The booking stored under the trimmed id, or nothing; a missing or blank
        id is rejected. */
    function FindById(id: Option<string>): (r: Result<Option<Booking>>)
      reads bookingRepository
      ensures r.Err? <==> Trimmed(id).None?
      ensures r.Err? ==> r.error == IllegalArgument("id must be provided")
      ensures r.Ok? ==> (r.value.Some? <==> Trim(id.value) in bookingRepository.bookings)
      ensures r.Ok? && r.value.Some? ==> r.value.value == bookingRepository.bookings[Trim(id.value)]
    {
      var key := Trimmed(id);
      if key.None? then Err(IllegalArgument("id must be provided"))
      else Ok(bookingRepository.FindById(key.value))
    }

    /** The bookings of a flight, once each. The id must be present and not
        blank, and the flight must exist; reading it refreshes its state. */
    method FindByFlightId(flightId: Option<string>, now: int) returns (r: Result<seq<Booking>>)
      requires Valid()
      modifies flightService.flightRepository.flights.Values`state
      ensures Valid()
      ensures Trimmed(flightId).None? ==>
        && r == Err(IllegalArgument("flightId must be provided"))
        && forall f :: f in flightService.flightRepository.flights.Values ==> f.state == old(f.state)
      ensures Trimmed(flightId).Some? && Trim(flightId.value) !in flightService.flightRepository.flights ==>
        && r == Err(IllegalArgument("flightId does not exist"))
        && forall f :: f in flightService.flightRepository.flights.Values ==> f.state == old(f.state)
      ensures Trimmed(flightId).Some? && Trim(flightId.value) in flightService.flightRepository.flights ==>
        var key := Trim(flightId.value);
        var flight := flightService.flightRepository.flights[key];
        && r.Ok?
        && |r.value| == CountFor(bookingRepository.bookings, key)
        && (forall k :: k in bookingRepository.bookings && bookingRepository.bookings[k].flightId == key ==>
              bookingRepository.bookings[k] in r.value)
        && (forall b :: b in r.value ==> b in bookingRepository.bookings.Values && b.flightId == key)
        && (forall i, j :: 0 <= i < j < |r.value| ==> r.value[i] != r.value[j])
        && flight.state == old(flightService.Derived(flight, flight.state, now))
        && (forall f :: f in flightService.flightRepository.flights.Values && f != flight ==> f.state == old(f.state))
    {
      var key := Trimmed(flightId);
      if key.None? {
        return Err(IllegalArgument("flightId must be provided"));
      }
      var flight := flightService.FindById(key.value, now);
      if flight == null {
        return Err(IllegalArgument("flightId does not exist"));
      }
      var found := bookingRepository.FindByFlightId(key.value);
      return Ok(found);
    }
  }
}
