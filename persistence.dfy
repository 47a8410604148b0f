/** The in-memory stores. Each is a map from id to entity; the source keeps
    them in process-wide static maps, which the model represents by handing one
    instance of each store to every service that uses it. */
module Persistence {
  import opened Models
  import opened Text

  /** Stands in for `UUID.randomUUID().toString()`: some id that no stored
      entity has yet (here, a string longer than every taken one). */
  method FreshId(taken: set<string>) returns (id: string)
    ensures id !in taken
  {
    var longest: nat := 0;
    var todo := taken;
    while todo != {}
      invariant todo <= taken
      invariant forall s :: s in taken && s !in todo ==> |s| <= longest
      decreases |todo|
    {
      var s :| s in todo;
      if |s| > longest {
        longest := |s|;
      }
      todo := todo - {s};
    }
    id := seq(longest + 1, _ => 'u');
  }

  /** The ids of the stored bookings that belong to `flightId`. */
  ghost function KeysFor(bookings: map<string, Booking>, flightId: string): set<string> {
    set k | k in bookings && bookings[k].flightId == flightId
  }

  /** The number of bookings on a flight: the count behind every state and
      capacity rule. */
  ghost function CountFor(bookings: map<string, Booking>, flightId: string): nat {
    |KeysFor(bookings, flightId)|
  }

  /** The ids among `within` whose booking belongs to `flightId`. */
  ghost function KeysForAmong(bookings: map<string, Booking>, flightId: string, within: set<string>): set<string> {
    set k | k in within && k in bookings && bookings[k].flightId == flightId
  }

  /** Visiting one more stored id adds it to the matching ids exactly when its
      booking belongs to the flight. */
  lemma KeysForAmongStep(bookings: map<string, Booking>, flightId: string, within: set<string>, k: string)
    requires k in bookings && k !in within
    ensures |KeysForAmong(bookings, flightId, within + {k})| ==
      |KeysForAmong(bookings, flightId, within)| + (if bookings[k].flightId == flightId then 1 else 0)
  {
    var before, after := KeysForAmong(bookings, flightId, within), KeysForAmong(bookings, flightId, within + {k});
    if bookings[k].flightId == flightId {
      assert after == before + {k};
    } else {
      assert after == before;
    }
  }

  /** Storing one booking raises the count of its own flight by at most one and
      never raises the count of another flight; under a fresh id it raises its
      flight's count by exactly one. */
  lemma CountAfterPut(bookings: map<string, Booking>, k: string, b: Booking, flightId: string)
    ensures CountFor(bookings[k := b], flightId) <= CountFor(bookings, flightId) + 1
    ensures b.flightId != flightId ==> CountFor(bookings[k := b], flightId) <= CountFor(bookings, flightId)
    ensures k !in bookings ==>
      CountFor(bookings[k := b], flightId) ==
        CountFor(bookings, flightId) + (if b.flightId == flightId then 1 else 0)
  {
    var before, after := KeysFor(bookings, flightId), KeysFor(bookings[k := b], flightId);
    if b.flightId == flightId {
      assert after == before + {k};
      if k !in bookings {
        assert k !in before;
      }
    } else {
      assert after == before - {k};
    }
  }

  /** `out` lists, once each, the bookings of `flightId` among the ids in
      `done`. */
  ghost predicate Collected(bookings: map<string, Booking>, flightId: string, done: set<string>, out: seq<Booking>) {
    && |out| == |KeysForAmong(bookings, flightId, done)|
    && (forall k :: k in done && k in bookings && bookings[k].flightId == flightId ==> bookings[k] in out)
    && (forall i :: 0 <= i < |out| ==>
          out[i].id.Some? && out[i].id.value in done && out[i].id.value in bookings &&
          bookings[out[i].id.value] == out[i] && out[i].flightId == flightId)
    && (forall i, j :: 0 <= i < j < |out| ==> out[i] != out[j])
  }

  lemma CollectStep(bookings: map<string, Booking>, flightId: string, done: set<string>, out: seq<Booking>, k: string)
    requires forall j :: j in bookings ==> bookings[j].id == Some(j)
    requires k in bookings && k !in done
    requires Collected(bookings, flightId, done, out)
    ensures Collected(bookings, flightId, done + {k},
      if bookings[k].flightId == flightId then out + [bookings[k]] else out)
  {
    KeysForAmongStep(bookings, flightId, done, k);
    var b := bookings[k];
    if b.flightId == flightId {
      assert b.id == Some(k);
      assert forall i :: 0 <= i < |out| ==> out[i] != b;
      var out' := out + [b];
      assert forall i :: 0 <= i < |out| ==> out'[i] == out[i];
      assert out'[|out|] == b;
    }
  }

  /** The id the rocket store gives a rocket saved without one: `"r" + n`. */
  function GeneratedId(n: nat): (id: string)
    ensures |id| >= 2 && id[0] == 'r'
    ensures forall i :: 1 <= i < |id| ==> '0' <= id[i] <= '9'
  {
    "r" + DecimalString(n)
  }

  /** Different counter values give different ids, so two rockets saved one
      after the other without ids never share one. */
  lemma GeneratedIdsDistinct(m: nat, n: nat)
    requires m != n
    ensures GeneratedId(m) != GeneratedId(n)
  {
    if GeneratedId(m) == GeneratedId(n) {
      assert DecimalString(m) == GeneratedId(m)[1..] == GeneratedId(n)[1..] == DecimalString(n);
      DecimalStringInjective(m, n);
    }
  }

  class RocketRepository {
    var rockets: map<string, Rocket>
    var nextId: nat

    constructor ()
      ensures rockets == map[] && nextId == 0
    {
      rockets := map[];
      nextId := 0;
    }

    /** Keeps a provided id; otherwise assigns `"r" + nextId` and advances the
        counter by one. The rocket is then stored under its id. */
    method Save(rocket: Rocket) returns (saved: Rocket)
      modifies this
      ensures rocket.id.Some? ==> saved == rocket && nextId == old(nextId)
      ensures rocket.id.None? ==>
        saved == rocket.(id := Some(GeneratedId(old(nextId)))) && nextId == old(nextId) + 1
      ensures saved.id.Some? && rockets == old(rockets)[saved.id.value := saved]
    {
      saved := rocket;
      if rocket.id.None? {
        saved := rocket.(id := Some(GeneratedId(nextId)));
        nextId := nextId + 1;
      }
      rockets := rockets[saved.id.value := saved];
    }

    /** `rockets.get(id)`; a null id finds nothing. */
    function FindById(id: Option<string>): (r: Option<Rocket>)
      reads this
      ensures r.Some? <==> id.Some? && id.value in rockets
      ensures r.Some? ==> r.value == rockets[id.value]
    {
      if id.Some? && id.value in rockets then Some(rockets[id.value]) else None
    }

    /** A new list holding every stored rocket once. */
    method FindAll() returns (all: seq<Rocket>)
      ensures |all| == |rockets|
      ensures forall k :: k in rockets ==> rockets[k] in all
      ensures forall r :: r in all ==> r in rockets.Values
    {
      all := [];
      var todo := rockets.Keys;
      while todo != {}
        invariant todo <= rockets.Keys
        invariant |all| + |todo| == |rockets|
        invariant forall k :: k in rockets && k !in todo ==> rockets[k] in all
        invariant forall r :: r in all ==> r in rockets.Values
        decreases |todo|
      {
        var k :| k in todo;
        all := all + [rockets[k]];
        todo := todo - {k};
      }
    }
  }

  class FlightRepository {
    var flights: map<string, Flight>

    /** Every stored flight carries the id it is stored under. */
    ghost predicate Valid()
      reads this, flights.Values`id
    {
      && (forall k :: k in flights ==> flights[k].id == Some(k))
      && (forall f :: f in flights.Values ==> f.id.Some? && f.id.value in flights && flights[f.id.value] == f)
    }

    constructor ()
      ensures Valid() && flights == map[]
    {
      flights := map[];
    }

    /** Keeps a provided id, otherwise gives the flight a fresh one, and stores
        the flight under its id, replacing whatever was there. */
    method Save(flight: Flight) returns (saved: Flight)
      requires Valid()
      modifies this, flight`id
      ensures Valid() && saved == flight
      ensures old(flight.id).Some? ==> flight.id == old(flight.id)
      ensures old(flight.id).None? ==> flight.id.Some? && flight.id.value !in old(flights)
      ensures flight.id.Some? && flights == old(flights)[flight.id.value := flight]
    {
      if flight.id.None? {
        var id := FreshId(flights.Keys);
        flight.id := Some(id);
      }
      flights := flights[flight.id.value := flight];
      saved := flight;
    }

    /** `flights.get(id)`: the stored flight, or null for an id never saved. */
    function FindById(id: string): (r: Flight?)
      reads this
      ensures r != null <==> id in flights
      ensures r != null ==> r == flights[id]
    {
      if id in flights then flights[id] else null
    }

    /** A new list holding every stored flight exactly once. */
    method FindAll() returns (all: seq<Flight>)
      requires Valid()
      ensures |all| == |flights|
      ensures forall k :: k in flights ==> flights[k] in all
      ensures forall f :: f in all ==> f in flights.Values
      ensures forall i, j :: 0 <= i < j < |all| ==> all[i] != all[j]
    {
      all := [];
      var todo := flights.Keys;
      while todo != {}
        invariant todo <= flights.Keys
        invariant |all| + |todo| == |flights|
        invariant forall k :: k in flights && k !in todo ==> flights[k] in all
        invariant forall i :: 0 <= i < |all| ==>
          all[i].id.Some? && all[i].id.value in flights && all[i].id.value !in todo && flights[all[i].id.value] == all[i]
        invariant forall i, j :: 0 <= i < j < |all| ==> all[i] != all[j]
        decreases |todo|
      {
        var k :| k in todo;
        all := all + [flights[k]];
        todo := todo - {k};
      }
    }
  }

  class BookingRepository {
    var bookings: map<string, Booking>

    /** Every stored booking carries the id it is stored under. */
    ghost predicate Valid()
      reads this
    {
      forall k :: k in bookings ==> bookings[k].id == Some(k)
    }

    constructor ()
      ensures Valid() && bookings == map[]
    {
      bookings := map[];
    }

    /** Gives the booking a fresh id only when it has none, sets `createdAt`
        only when it is absent, and stores it under its id. */
    method Save(booking: Booking, now: int) returns (saved: Booking)
      requires Valid()
      modifies this
      ensures Valid()
      ensures booking.id.Some? ==> saved.id == booking.id
      ensures booking.id.None? ==> saved.id.Some? && saved.id.value !in old(bookings)
      ensures saved.createdAt == if booking.createdAt.Some? then booking.createdAt else Some(now)
      ensures saved == booking.(id := saved.id, createdAt := saved.createdAt)
      ensures saved.id.Some? && bookings == old(bookings)[saved.id.value := saved]
    {
      saved := booking;
      if saved.id.None? {
        var id := FreshId(bookings.Keys);
        saved := saved.(id := Some(id));
      }
      if saved.createdAt.None? {
        saved := saved.(createdAt := Some(now));
      }
      bookings := bookings[saved.id.value := saved];
    }

    /** `bookings.get(id)`: the stored booking, or nothing. */
    function FindById(id: string): (r: Option<Booking>)
      reads this
      ensures r.Some? <==> id in bookings
      ensures r.Some? ==> r.value == bookings[id]
    {
      if id in bookings then Some(bookings[id]) else None
    }

    /** Exactly the stored bookings of `flightId`, each once. */
    method FindByFlightId(flightId: string) returns (out: seq<Booking>)
      requires Valid()
      ensures |out| == CountFor(bookings, flightId)
      ensures forall k :: k in bookings && bookings[k].flightId == flightId ==> bookings[k] in out
      ensures forall b :: b in out ==> b in bookings.Values && b.flightId == flightId
      ensures forall i, j :: 0 <= i < j < |out| ==> out[i] != out[j]
    {
      out := [];
      var todo := bookings.Keys;
      ghost var done: set<string> := {};
      while todo != {}
        invariant todo <= bookings.Keys && done == bookings.Keys - todo
        invariant Collected(bookings, flightId, done, out)
        decreases |todo|
      {
        var k :| k in todo;
        var b := bookings[k];
        CollectStep(bookings, flightId, done, out, k);
        if b.flightId == flightId {
          out := out + [b];
        }
        todo := todo - {k};
        done := done + {k};
      }
      assert KeysForAmong(bookings, flightId, done) == KeysFor(bookings, flightId);
      forall b | b in out
        ensures b in bookings.Values
      {
        var i :| 0 <= i < |out| && out[i] == b;
        assert bookings[out[i].id.value] == b;
      }
    }

    /** The number of stored bookings of `flightId`. */
    method CountByFlightId(flightId: string) returns (count: nat)
      ensures count == CountFor(bookings, flightId)
    {
      count := 0;
      var todo := bookings.Keys;
      ghost var done: set<string> := {};
      while todo != {}
        invariant todo <= bookings.Keys && done == bookings.Keys - todo
        invariant count == |KeysForAmong(bookings, flightId, done)|
        decreases |todo|
      {
        var k :| k in todo;
        KeysForAmongStep(bookings, flightId, done, k);
        if bookings[k].flightId == flightId {
          count := count + 1;
        }
        todo := todo - {k};
        done := done + {k};
      }
      assert KeysForAmong(bookings, flightId, done) == KeysFor(bookings, flightId);
    }
  }
}
