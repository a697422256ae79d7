/**
 The fixed flight catalog of the tickets controller: a map from flight id to the
 flight's origin, destination and departure time. The records carry no id of their own.
 */
module FlightCatalog {
  import opened Wrappers

  datatype Flight = Flight(origin: string, destination: string, departure: string)

  /** The two flights the controller knows. */
  const FLIGHTS: map<int, Flight> := map[
    322 := Flight("Arlanda", "Schipol", "2023-05-11 14:30"),
    431 := Flight("Arlanda", "Berlin", "2023-05-11 18:30")
  ]

  /** The membership rule `in:322,431` that guards ticket creation. */
  predicate IsKnownFlight(flightId: int)
    ensures IsKnownFlight(flightId) <==> flightId in FLIGHTS
  {
    flightId == 322 || flightId == 431
  }

  /** Looks a flight up; exactly the ids accepted by the creation rule are present. */
  function Lookup(flightId: int): (r: Option<Flight>)
    ensures r.Some? <==> IsKnownFlight(flightId)
    ensures r.Some? ==> flightId in FLIGHTS && r.value == FLIGHTS[flightId]
  {
    if flightId in FLIGHTS then Some(FLIGHTS[flightId]) else None
  }
}
