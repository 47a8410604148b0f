/** Domain entities shared by the stores and the services: the flight lifecycle
    states, rockets, flights, bookings, the request records the services accept,
    and the failures they report. */
module Models {

  datatype Option<+T> = None | Some(value: T)

  /** The exceptions the services throw, with their messages.
      `Conflict` is the booking-conflict exception; `NullPointer` is the
      unboxing of a missing Integer capacity. */
  datatype Error =
    | IllegalArgument(message: string)
    | IllegalState(message: string)
    | Conflict(message: string)
    | NullPointer

  datatype Result<+T> = Ok(value: T) | Err(error: Error)

  datatype FlightState = Scheduled | Confirmed | SoldOut | Cancelled | Done

  datatype Range = Leo | Moon | Mars

  /** A rocket; every field may be absent (null) as in the source's setters. */
  datatype Rocket = Rocket(
    id: Option<string>,
    name: Option<string>,
    capacity: Option<int>,
    range: Option<Range>,
    speed: Option<real>)

  /** A booking; the store fills in `id` and `createdAt` when they are absent.
      Instants are epoch seconds. */
  datatype Booking = Booking(
    id: Option<string>,
    flightId: string,
    passengerName: string,
    passengerDocument: string,
    discountPercent: int,
    finalPrice: real,
    createdAt: Option<int>)

  datatype CreateFlightRequest = CreateFlightRequest(
    rocketId: Option<string>,
    launchDateTime: Option<int>,
    basePrice: Option<real>,
    minimumPassengers: Option<int>)

  datatype CreateBookingRequest = CreateBookingRequest(
    flightId: Option<string>,
    passengerName: Option<string>,
    passengerDocument: Option<string>)

  /** A flight. The store assigns `id`; the flight service rewrites `state`
      in place every time the flight is read. */
  class Flight {
    var id: Option<string>
    var rocketId: Option<string>
    var launchDateTime: Option<int>
    var basePrice: Option<real>
    var minimumPassengers: Option<int>
    var state: FlightState

    constructor (rocketId: Option<string>, launchDateTime: Option<int>, basePrice: Option<real>,
                 minimumPassengers: Option<int>, state: FlightState)
      ensures this.id == None && this.rocketId == rocketId && this.launchDateTime == launchDateTime
      ensures this.basePrice == basePrice && this.minimumPassengers == minimumPassengers
      ensures this.state == state
    {
      this.id := None;
      this.rocketId := rocketId;
      this.launchDateTime := launchDateTime;
      this.basePrice := basePrice;
      this.minimumPassengers := minimumPassengers;
      this.state := state;
    }
  }
}
