/** Rocket validation and creation. */
module Rockets {
  import opened Models
  import opened Text
  import opened Persistence

  const MaxCapacity := 10

  /** The first problem with a rocket submitted for creation, or none. The
      capacity is an `Integer`: when it is missing, comparing it unboxes null. */
  function ValidateRocket(rocket: Option<Rocket>): (r: Option<Error>)
    ensures r.None? <==>
      && rocket.Some?
      && rocket.value.name.Some? && !IsBlank(rocket.value.name.value)
      && rocket.value.capacity.Some? && 1 <= rocket.value.capacity.value <= MaxCapacity
    ensures rocket.None? ==> r == Some(IllegalArgument("Rocket must be provided"))
    ensures rocket.Some? && (rocket.value.name.None? || IsBlank(rocket.value.name.value)) ==>
      r == Some(IllegalArgument("Rocket name must be provided"))
    ensures rocket.Some? && rocket.value.name.Some? && !IsBlank(rocket.value.name.value)
            && rocket.value.capacity.None?
            ==> r == Some(NullPointer)
    ensures r == Some(IllegalArgument("Rocket capacity must be between 1 and 10")) <==>
      && rocket.Some?
      && rocket.value.name.Some? && !IsBlank(rocket.value.name.value)
      && rocket.value.capacity.Some?
      && !(1 <= rocket.value.capacity.value <= MaxCapacity)
  {
    if rocket.None? then
      Some(IllegalArgument("Rocket must be provided"))
    else if rocket.value.name.None? || IsBlank(rocket.value.name.value) then
      Some(IllegalArgument("Rocket name must be provided"))
    else if rocket.value.capacity.None? then
      Some(NullPointer)
    else if rocket.value.capacity.value <= 0 || rocket.value.capacity.value > MaxCapacity then
      Some(IllegalArgument("Rocket capacity must be between 1 and 10"))
    else
      None
  }

  /** The capacities a rocket may be created with are exactly 1 through 10. */
  lemma AcceptedCapacities(name: string, capacity: int, range: Option<Range>, speed: Option<real>)
    requires !IsBlank(name)
    ensures ValidateRocket(Some(Rocket(None, Some(name), Some(capacity), range, speed))).None? <==>
      capacity in {1, 2, 3, 4, 5, 6, 7, 8, 9, 10}
  {
  }

  class RocketService {
    const repository: RocketRepository

    constructor (repository: RocketRepository)
      ensures this.repository == repository
    {
      this.repository := repository;
    }

    /** The stored rocket with that id, or nothing for an unknown (or null) id. */
    function FindById(id: Option<string>): (r: Option<Rocket>)
      reads repository
      ensures r.Some? <==> id.Some? && id.value in repository.rockets
      ensures r.Some? ==> r.value == repository.rockets[id.value]
    {
      repository.FindById(id)
    }

    /** Every stored rocket, once each. */
    method FindAll() returns (all: seq<Rocket>)
      ensures |all| == |repository.rockets|
      ensures forall r :: r in all <==> r in repository.rockets.Values
    {
      all := repository.FindAll();
    }

    /** Rejects an invalid rocket without storing anything; otherwise returns
        the rocket as the store saved it. */
    method Create(rocket: Option<Rocket>) returns (r: Result<Rocket>)
      modifies repository
      ensures ValidateRocket(rocket).Some? ==>
        r == Err(ValidateRocket(rocket).value) && unchanged(repository)
      ensures ValidateRocket(rocket).None? ==>
        && r.Ok?
        && r.value.id.Some?
        && repository.rockets == old(repository.rockets)[r.value.id.value := r.value]
        && (rocket.value.id.Some? ==> r.value == rocket.value && repository.nextId == old(repository.nextId))
        && (rocket.value.id.None? ==>
              r.value == rocket.value.(id := Some(GeneratedId(old(repository.nextId))))
              && repository.nextId == old(repository.nextId) + 1)
    {
      var error := ValidateRocket(rocket);
      if error.Some? {
        return Err(error.value);
      }
      var saved := repository.Save(rocket.value);
      return Ok(saved);
    }
  }
}
