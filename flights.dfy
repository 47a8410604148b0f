/** The flight lifecycle: validation of new flights, the state a flight is
    given every time it is read, manual cancellation and the listing of
    future flights. */
module Flights {
  import opened Models
  import opened Text
  import opened Persistence
  import opened Rockets

  /** Seven days in seconds: the window before launch in which an
      under-booked flight is cancelled. */
  const CancellationWindow := 7 * 24 * 3600

  /** The launch has passed (it is strictly before now). */
  predicate Launched(launch: Option<int>, now: int) {
    launch.Some? && now > launch.value
  }

  /** The launch is strictly after now. */
  predicate Upcoming(launch: Option<int>, now: int) {
    launch.Some? && launch.value > now
  }

  /** A rocket capacity the booking rules can use. */
  predicate Usable(capacity: Option<int>) {
    capacity.Some? && capacity.value >= 1
  }

  /** Inside the last seven days before launch with fewer bookings than the
      minimum. */
  predicate UnderBookedNearLaunch(launch: Option<int>, minimum: Option<int>, bookings: int, now: int) {
    && launch.Some? && now > launch.value - CancellationWindow
    && minimum.Some? && bookings < minimum.value
  }

  /** The capacity of the rocket a flight names, looked up by its trimmed id;
      nothing when the id is missing or blank or no such rocket is stored. */
  function RocketCapacity(rocketId: Option<string>, rockets: map<string, Rocket>): (r: Option<int>)
    ensures r.Some? ==> rocketId.Some? && Trim(rocketId.value) in rockets &&
                        r == rockets[Trim(rocketId.value)].capacity
    ensures rocketId.None? || IsBlank(rocketId.value) ==> r.None?
    ensures rocketId.Some? && !IsBlank(rocketId.value) && Trim(rocketId.value) in rockets ==>
      r == rockets[Trim(rocketId.value)].capacity
  {
    if rocketId.None? || IsBlank(rocketId.value) then None
    else
      var id := Trim(rocketId.value);
      if id in rockets then rockets[id].capacity else None
  }

  /** The state a flight is given when it is read, from its current state,
      launch time, rocket capacity, minimum passenger count and number of
      bookings. Each outcome is characterised by the rule that produces it;
      the rules are tried in order and the first that applies wins. */
  function DeriveState(current: FlightState, launch: Option<int>, capacity: Option<int>,
                       minimum: Option<int>, bookings: int, now: int): (r: FlightState)
    ensures r == Done <==> Launched(launch, now)
    ensures r == Cancelled <==>
      && !Launched(launch, now)
      && (current == Cancelled || (Usable(capacity) && UnderBookedNearLaunch(launch, minimum, bookings, now)))
    ensures r == SoldOut <==>
      && !Launched(launch, now) && current != Cancelled && Usable(capacity)
      && !UnderBookedNearLaunch(launch, minimum, bookings, now)
      && bookings >= capacity.value
    ensures r == Confirmed <==>
      && !Launched(launch, now) && current != Cancelled && Usable(capacity)
      && !UnderBookedNearLaunch(launch, minimum, bookings, now)
      && bookings < capacity.value && minimum.Some? && bookings >= minimum.value
  {
    if Launched(launch, now) then Done
    else if current == Cancelled then Cancelled
    else if !Usable(capacity) then Scheduled
    else if UnderBookedNearLaunch(launch, minimum, bookings, now) then Cancelled
    else if bookings >= capacity.value then SoldOut
    else if minimum.Some? && bookings >= minimum.value then Confirmed
    else Scheduled
  }

  /** Refreshing twice with the same clock and the same bookings changes
      nothing the second time. */
  lemma DeriveStateIdempotent(current: FlightState, launch: Option<int>, capacity: Option<int>,
                              minimum: Option<int>, bookings: int, now: int)
    ensures var once := DeriveState(current, launch, capacity, minimum, bookings, now);
      DeriveState(once, launch, capacity, minimum, bookings, now) == once
  {
  }

  /** Without a usable rocket the flight falls back to SCHEDULED (before launch,
      unless cancelled) whatever its bookings: the count is not consulted. */
  lemma UnusableRocketIgnoresBookings(current: FlightState, launch: Option<int>, capacity: Option<int>,
                                      minimum: Option<int>, b1: int, b2: int, now: int)
    requires !Usable(capacity)
    ensures DeriveState(current, launch, capacity, minimum, b1, now) ==
            DeriveState(current, launch, capacity, minimum, b2, now)
    ensures !Launched(launch, now) && current != Cancelled ==>
            DeriveState(current, launch, capacity, minimum, b1, now) == Scheduled
  {
  }

  /** A flight listed as upcoming is never DONE, and outside the last week a
      cancellation only comes from a manual cancel. */
  lemma UpcomingNeverDone(current: FlightState, launch: Option<int>, capacity: Option<int>,
                          minimum: Option<int>, bookings: int, now: int)
    requires Upcoming(launch, now)
    ensures DeriveState(current, launch, capacity, minimum, bookings, now) != Done
    ensures now <= launch.value - CancellationWindow ==>
      (DeriveState(current, launch, capacity, minimum, bookings, now) == Cancelled <==> current == Cancelled)
  {
  }

  /** The request names a rocket id that is not blank and, once trimmed, is
      stored. */
  predicate NamesStoredRocket(q: CreateFlightRequest, rockets: map<string, Rocket>) {
    q.rocketId.Some? && !IsBlank(q.rocketId.value) && Trim(q.rocketId.value) in rockets
  }

  /** The request passes every check up to and including the base price. */
  predicate PassesUpToPrice(q: CreateFlightRequest, rockets: map<string, Rocket>, now: int) {
    && NamesStoredRocket(q, rockets)
    && Upcoming(q.launchDateTime, now)
    && q.basePrice.Some? && q.basePrice.value > 0.0
  }

  /** The capacity of the rocket a request names. */
  function RequestedCapacity(q: CreateFlightRequest, rockets: map<string, Rocket>): Option<int>
    requires NamesStoredRocket(q, rockets)
  {
    rockets[Trim(q.rocketId.value)].capacity
  }

  /** The minimum passenger count is between 1 and a usable capacity. */
  predicate MinimumFits(q: CreateFlightRequest, capacity: Option<int>)
    requires Usable(capacity)
  {
    q.minimumPassengers.Some? && 1 <= q.minimumPassengers.value <= capacity.value
  }

  /** The first problem with a flight creation request, or none; `now` is the
      clock reading taken during validation. Each message is given exactly
      when every earlier check passed and its own check fails. */
  function FlightRequestError(request: Option<CreateFlightRequest>, rockets: map<string, Rocket>, now: int)
    : (r: Option<Error>)
    ensures r.None? <==>
      && request.Some? && PassesUpToPrice(request.value, rockets, now)
      && Usable(RequestedCapacity(request.value, rockets))
      && MinimumFits(request.value, RequestedCapacity(request.value, rockets))
    ensures r.Some? ==> r.value.IllegalArgument?
    ensures r == Some(IllegalArgument("Request body must be provided")) <==> request.None?
    ensures r == Some(IllegalArgument("rocketId must be provided")) <==>
      request.Some? && (request.value.rocketId.None? || IsBlank(request.value.rocketId.value))
    ensures r == Some(IllegalArgument("rocketId does not exist")) <==>
      && request.Some? && request.value.rocketId.Some? && !IsBlank(request.value.rocketId.value)
      && Trim(request.value.rocketId.value) !in rockets
  {
    if request.None? then
      Some(IllegalArgument("Request body must be provided"))
    else
      var q := request.value;
      if q.rocketId.None? || IsBlank(q.rocketId.value) then
        Some(IllegalArgument("rocketId must be provided"))
      else if Trim(q.rocketId.value) !in rockets then
        Some(IllegalArgument("rocketId does not exist"))
      else if q.launchDateTime.None? then
        Some(IllegalArgument("launchDateTime must be provided"))
      else if !(q.launchDateTime.value > now) then
        Some(IllegalArgument("launchDateTime must be in the future"))
      else if q.basePrice.None? || !(q.basePrice.value > 0.0) then
        Some(IllegalArgument("basePrice must be greater than 0"))
      else
        var capacity := RequestedCapacity(q, rockets);
        if !Usable(capacity) then
          Some(IllegalArgument("rocket capacity is invalid"))
        else if !MinimumFits(q, capacity) then
          Some(IllegalArgument("minimumPassengers must be between 1 and rocket capacity"))
        else
          None
  }

  /** Once the request names a stored rocket, the later checks run in order:
      each message is given exactly when every earlier check passed and its own
      check fails. */
  lemma LaterFlightChecksOrdered(request: CreateFlightRequest, rockets: map<string, Rocket>, now: int)
    requires NamesStoredRocket(request, rockets)
    ensures FlightRequestError(Some(request), rockets, now) ==
              Some(IllegalArgument("launchDateTime must be provided")) <==>
            request.launchDateTime.None?
    ensures FlightRequestError(Some(request), rockets, now) ==
              Some(IllegalArgument("launchDateTime must be in the future")) <==>
            request.launchDateTime.Some? && request.launchDateTime.value <= now
    ensures FlightRequestError(Some(request), rockets, now) ==
              Some(IllegalArgument("basePrice must be greater than 0")) <==>
            Upcoming(request.launchDateTime, now) && !(request.basePrice.Some? && request.basePrice.value > 0.0)
    ensures FlightRequestError(Some(request), rockets, now) ==
              Some(IllegalArgument("rocket capacity is invalid")) <==>
            PassesUpToPrice(request, rockets, now) && !Usable(RequestedCapacity(request, rockets))
    ensures FlightRequestError(Some(request), rockets, now) ==
              Some(IllegalArgument("minimumPassengers must be between 1 and rocket capacity")) <==>
            && PassesUpToPrice(request, rockets, now)
            && Usable(RequestedCapacity(request, rockets))
            && !MinimumFits(request, RequestedCapacity(request, rockets))
  {
    var r := FlightRequestError(Some(request), rockets, now);
    if request.launchDateTime.None? {
      assert r == Some(IllegalArgument("launchDateTime must be provided"));
    } else if request.launchDateTime.value <= now {
      assert r == Some(IllegalArgument("launchDateTime must be in the future"));
    } else if !(request.basePrice.Some? && request.basePrice.value > 0.0) {
      assert r == Some(IllegalArgument("basePrice must be greater than 0"));
    } else if !Usable(RequestedCapacity(request, rockets)) {
      assert r == Some(IllegalArgument("rocket capacity is invalid"));
    } else if !MinimumFits(request, RequestedCapacity(request, rockets)) {
      assert r == Some(IllegalArgument("minimumPassengers must be between 1 and rocket capacity"));
    } else {
      assert r == None;
    }
  }

  /** The checks run in order and the first failure is reported: an unusable
      minimum is only reported once everything before it passed. */
  lemma MinimumCheckedLast(request: CreateFlightRequest, rockets: map<string, Rocket>, now: int)
    requires request.rocketId.Some? && !IsBlank(request.rocketId.value)
    requires Trim(request.rocketId.value) in rockets
    requires Upcoming(request.launchDateTime, now)
    requires request.basePrice.Some? && request.basePrice.value > 0.0
    requires Usable(rockets[Trim(request.rocketId.value)].capacity)
    requires request.minimumPassengers.Some? && request.minimumPassengers.value == 0
    ensures FlightRequestError(Some(request), rockets, now) ==
      Some(IllegalArgument("minimumPassengers must be between 1 and rocket capacity"))
  {
  }

  /** The rocket id a successful `create` stores is already trimmed, so the
      refresh, which trims it again, finds the rocket `create` validated, with
      its usable capacity. */
  lemma CreatedFlightFindsItsRocket(request: CreateFlightRequest, rockets: map<string, Rocket>, now: int)
    requires FlightRequestError(Some(request), rockets, now).None?
    ensures RocketCapacity(Some(Trim(request.rocketId.value)), rockets) == RequestedCapacity(request, rockets)
    ensures Usable(RocketCapacity(Some(Trim(request.rocketId.value)), rockets))
  {
    TrimIdempotent(request.rocketId.value);
  }

  /** The state a refresh at `now` gives a flight in state `current`, from its
      stored fields and the current rocket and booking stores. */
  ghost function Refreshed(current: FlightState, launch: Option<int>, rocketId: Option<string>,
                           minimum: Option<int>, id: string,
                           rockets: map<string, Rocket>, bookings: map<string, Booking>, now: int): FlightState
  {
    DeriveState(current, launch, RocketCapacity(rocketId, rockets), minimum, CountFor(bookings, id), now)
  }

  class FlightService {
    const flightRepository: FlightRepository
    const bookingRepository: BookingRepository
    const rocketService: RocketService

    constructor (flightRepository: FlightRepository, bookingRepository: BookingRepository,
                 rocketService: RocketService)
      ensures this.flightRepository == flightRepository
      ensures this.bookingRepository == bookingRepository
      ensures this.rocketService == rocketService
    {
      this.flightRepository := flightRepository;
      this.bookingRepository := bookingRepository;
      this.rocketService := rocketService;
    }

    ghost predicate Valid()
      reads this, flightRepository, flightRepository.flights.Values`id, bookingRepository
    {
      flightRepository.Valid() && bookingRepository.Valid()
    }

    /** The state a refresh at `now` gives `flight` when its state was
        `current`. */
    ghost function Derived(flight: Flight, current: FlightState, now: int): FlightState
      reads flight`id, flight`rocketId, flight`launchDateTime, flight`minimumPassengers
      reads bookingRepository, rocketService.repository
      requires flight.id.Some?
    {
      Refreshed(current, flight.launchDateTime, flight.rocketId, flight.minimumPassengers, flight.id.value,
                rocketService.repository.rockets, bookingRepository.bookings, now)
    }

    /** The state the refresh rules give `flight` now, reading the rocket
        and booking stores; nothing changes. */
    method DesiredState(flight: Flight, now: int) returns (desired: FlightState)
      requires flight.id.Some?
      ensures desired == Derived(flight, flight.state, now)
    {
      var launch := flight.launchDateTime;
      if launch.Some? && now > launch.value {
        return Done;
      }
      if flight.state == Cancelled {
        return Cancelled;
      }
      var rocketId := flight.rocketId;
      if rocketId.None? || IsBlank(rocketId.value) {
        return Scheduled;
      }
      var rocket := rocketService.FindById(Some(Trim(rocketId.value)));
      var capacity := if rocket.None? then None else rocket.value.capacity;
      if capacity.None? || capacity.value < 1 {
        return Scheduled;
      }
      desired := DesiredFromBookings(flight, capacity.value, now);
    }

    /** The rules that consult the booking count, for a flight before launch,
        not cancelled, whose rocket has a usable capacity: auto-cancellation
        in the last week, then sold out, confirmed or scheduled. */
    method DesiredFromBookings(flight: Flight, capacity: int, now: int) returns (desired: FlightState)
      requires flight.id.Some?
      requires !Launched(flight.launchDateTime, now) && flight.state != Cancelled
      requires RocketCapacity(flight.rocketId, rocketService.repository.rockets) == Some(capacity) && capacity >= 1
      ensures desired == Derived(flight, flight.state, now)
    {
      var bookings := bookingRepository.CountByFlightId(flight.id.value);
      var launch := flight.launchDateTime;
      var minimum := flight.minimumPassengers;
      if launch.Some? && now > launch.value - CancellationWindow {
        if minimum.Some? && bookings < minimum.value {
          return Cancelled;
        }
      }
      if bookings >= capacity {
        desired := SoldOut;
      } else if minimum.Some? && bookings >= minimum.value {
        desired := Confirmed;
      } else {
        desired := Scheduled;
      }
    }

    /** Re-derives the state of a stored flight in place, writing it only when
        it differs; only its state changes. */
    method RefreshStateOnRead(flight: Flight, now: int)
      requires flight.id.Some?
      modifies flight`state
      ensures flight.state == old(Derived(flight, flight.state, now))
    {
      var desired := DesiredState(flight, now);
      if flight.state != desired {
        flight.state := desired;
      }
    }

    /** Validates the request and stores a new SCHEDULED flight with the
        trimmed rocket id; stores nothing when validation fails. */
    method Create(request: Option<CreateFlightRequest>, now: int) returns (r: Result<Flight>)
      requires Valid()
      modifies flightRepository
      ensures Valid()
      ensures var error := FlightRequestError(request, rocketService.repository.rockets, now);
        error.Some? ==> r == Err(error.value) && flightRepository.flights == old(flightRepository.flights)
      ensures FlightRequestError(request, rocketService.repository.rockets, now).None? ==>
        && r.Ok? && fresh(r.value)
        && r.value.id.Some? && r.value.id.value !in old(flightRepository.flights)
        && flightRepository.flights == old(flightRepository.flights)[r.value.id.value := r.value]
        && r.value.rocketId == Some(Trim(request.value.rocketId.value))
        && r.value.launchDateTime == request.value.launchDateTime
        && r.value.basePrice == request.value.basePrice
        && r.value.minimumPassengers == request.value.minimumPassengers
        && r.value.state == Scheduled
    {
      var error := FlightRequestError(request, rocketService.repository.rockets, now);
      if error.Some? {
        return Err(error.value);
      }
      var q := request.value;
      var flight := new Flight(Some(Trim(q.rocketId.value)), q.launchDateTime, q.basePrice,
                               q.minimumPassengers, Scheduled);
      var saved := flightRepository.Save(flight);
      return Ok(saved);
    }

    /** The stored flight with that id, its state refreshed; null when no
        flight has that id. No other flight changes. */
    method FindById(id: string, now: int) returns (flight: Flight?)
      requires Valid()
      modifies flightRepository.flights.Values`state
      ensures Valid()
      ensures flight == (if id in flightRepository.flights then flightRepository.flights[id] else null)
      ensures flight != null ==> flight.state == old(Derived(flight, flight.state, now))
      ensures forall f :: f in flightRepository.flights.Values && f != flight ==> f.state == old(f.state)
    {
      flight := flightRepository.FindById(id);
      if flight == null {
        return;
      }
      RefreshStateOnRead(flight, now);
    }

    /** One step of `FindFutureFlights`: refreshes the flight and tells
        whether it launches after now and its refreshed state passes the
        filter. */
    method RefreshAndTest(flight: Flight, stateFilter: Option<FlightState>, now: int) returns (keep: bool)
      requires flight.id.Some?
      modifies flight`state
      ensures flight.state == Refreshed(old(flight.state), flight.launchDateTime, flight.rocketId,
                                        flight.minimumPassengers, flight.id.value,
                                        rocketService.repository.rockets, bookingRepository.bookings, now)
      ensures keep <==> Upcoming(flight.launchDateTime, now) && (stateFilter.None? || flight.state == stateFilter.value)
    {
      RefreshStateOnRead(flight, now);
      var launch := flight.launchDateTime;
      keep := launch.Some? && launch.value > now && (stateFilter.None? || flight.state == stateFilter.value);
    }

    /** The loop of `FindFutureFlights`: refreshes each flight of `all` in turn
        and keeps, in order, those launching after now whose refreshed state
        passes the filter. */
    method RefreshAndSelect(all: seq<Flight>, stateFilter: Option<FlightState>, now: int) returns (out: seq<Flight>)
      requires forall j :: 0 <= j < |all| ==> all[j].id.Some?
      requires forall j, k :: 0 <= j < k < |all| ==> all[j] != all[k]
      modifies all`state
      ensures forall j :: 0 <= j < |all| ==> all[j].state == Derived(all[j], old(all[j].state), now)
      ensures forall f :: f in out <==>
        f in all && Upcoming(f.launchDateTime, now) && (stateFilter.None? || f.state == stateFilter.value)
      ensures forall j, k :: 0 <= j < k < |out| ==> out[j] != out[k]
    {
      out := [];
      var i := 0;
      while i < |all|
        invariant 0 <= i <= |all|
        invariant forall j :: 0 <= j < i ==>
          all[j].state == Refreshed(old(all[j].state), all[j].launchDateTime, all[j].rocketId,
                                    all[j].minimumPassengers, all[j].id.value,
                                    rocketService.repository.rockets, bookingRepository.bookings, now)
        invariant forall j :: i <= j < |all| ==> all[j].state == old(all[j].state)
        invariant forall f :: f in out <==>
          f in all[..i] && Upcoming(f.launchDateTime, now) && (stateFilter.None? || f.state == stateFilter.value)
        invariant forall j, k :: 0 <= j < k < |out| ==> out[j] != out[k]
      {
        var flight := all[i];
        assert flight !in all[..i];
        assert all[..i + 1] == all[..i] + [flight];
        var keep := RefreshAndTest(flight, stateFilter, now);
        if keep {
          out := out + [flight];
        }
        i := i + 1;
      }
      assert all[..i] == all;
    }

    /** Refreshes every stored flight, then lists, once each, those whose launch
        is strictly after now and, when a filter is given, whose refreshed state
        is the filter. */
    method FindFutureFlights(stateFilter: Option<FlightState>, now: int) returns (out: seq<Flight>)
      requires Valid()
      modifies flightRepository.flights.Values`state
      ensures Valid()
      ensures forall f :: f in flightRepository.flights.Values ==> f.state == Derived(f, old(f.state), now)
      ensures forall f :: f in out <==>
        && f in flightRepository.flights.Values
        && Upcoming(f.launchDateTime, now)
        && (stateFilter.None? || f.state == stateFilter.value)
      ensures forall i, j :: 0 <= i < j < |out| ==> out[i] != out[j]
      ensures forall f :: f in out ==> f.state != Done
    {
      var all := flightRepository.FindAll();
      assert flightRepository.Valid();
      assert forall j :: 0 <= j < |all| ==> all[j].id.Some?;
      out := RefreshAndSelect(all, stateFilter, now);
      forall f | f in flightRepository.flights.Values
        ensures f in all
      {
        assert f == flightRepository.flights[f.id.value];
      }
    }

    /** The cancellation of a stored flight: refreshed first, a DONE flight
        is refused, a CANCELLED one is returned as it is, and any other
        becomes CANCELLED and is saved again under its own id. */
    method CancelStored(flight: Flight, now: int) returns (r: Result<Flight?>)
      requires flightRepository.Valid()
      requires flight.id.Some? && flight.id.value in flightRepository.flights
      requires flightRepository.flights[flight.id.value] == flight
      modifies flightRepository, flight`state, flight`id
      ensures flightRepository.Valid()
      ensures flightRepository.flights == old(flightRepository.flights)
      ensures flight.id == old(flight.id)
      ensures old(Derived(flight, flight.state, now)) == Done ==>
        r == Err(IllegalState("flight is DONE and cannot be cancelled")) && flight.state == Done
      ensures old(Derived(flight, flight.state, now)) != Done ==> r == Ok(flight) && flight.state == Cancelled
    {
      RefreshStateOnRead(flight, now);
      var state := flight.state;
      if state == Done {
        return Err(IllegalState("flight is DONE and cannot be cancelled"));
      }
      if state == Cancelled {
        return Ok(flight);
      }
      flight.state := Cancelled;
      assert flightRepository.flights[flight.id.value := flight] == flightRepository.flights;
      var saved := flightRepository.Save(flight);
      return Ok(saved);
    }

    /** Manual cancellation. A blank id is rejected, an unknown id gives null,
        a flight that is DONE once refreshed cannot be cancelled, and a
        cancelled flight is returned as it is; otherwise the flight becomes
        CANCELLED and is saved again under its own id. */
    method CancelById(id: Option<string>, now: int) returns (r: Result<Flight?>)
      requires Valid()
      modifies flightRepository, flightRepository.flights.Values`state, flightRepository.flights.Values`id
      ensures Valid()
      ensures flightRepository.flights == old(flightRepository.flights)
      ensures forall f :: f in flightRepository.flights.Values ==> f.id == old(f.id)
      ensures id.None? || IsBlank(id.value) ==>
        && r == Err(IllegalArgument("id must be provided"))
        && forall f :: f in flightRepository.flights.Values ==> f.state == old(f.state)
      ensures id.Some? && !IsBlank(id.value) && Trim(id.value) !in flightRepository.flights ==>
        && r == Ok(null)
        && forall f :: f in flightRepository.flights.Values ==> f.state == old(f.state)
      ensures id.Some? && !IsBlank(id.value) && Trim(id.value) in flightRepository.flights ==>
        var flight := flightRepository.flights[Trim(id.value)];
        && (forall f :: f in flightRepository.flights.Values && f != flight ==> f.state == old(f.state))
        && (old(Derived(flight, flight.state, now)) == Done ==>
              r == Err(IllegalState("flight is DONE and cannot be cancelled")) && flight.state == Done)
        && (old(Derived(flight, flight.state, now)) != Done ==> r == Ok(flight) && flight.state == Cancelled)
    {
      if id.None? || IsBlank(id.value) {
        return Err(IllegalArgument("id must be provided"));
      }
      var flight := flightRepository.FindById(Trim(id.value));
      if flight == null {
        return Ok(null);
      }
      r := CancelStored(flight, now);
    }
  }
}
