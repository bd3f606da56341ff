/** The frontend's shared record types (`types/trip.ts`): a location, a
    place of a guest trip and a route summary. Numbers of the frontend are
    modelled as reals. */
module FrontendTypes {

  datatype Location = Location(lat: real, lng: real)

  /** `id` is the internal uuid, `placeId` the map provider's id; `order` is
      a float so that a place can be inserted between two others. */
  datatype Place = Place(id: string, placeId: string, name: string, lat: real, lng: real, order: real)

  datatype RouteSummary = RouteSummary(totalDurationMin: real, totalDistanceKm: real)

  /** `Math.round`: the nearest integer, halves rounded up. */
  function Round(x: real): (n: int)
    ensures n as real - 0.5 <= x < n as real + 0.5
  {
    (x + 0.5).Floor
  }

  /** `Math.ceil`: the least integer not below x. */
  function Ceil(x: real): (n: int)
    ensures x <= n as real < x + 1.0
  {
    -((-x).Floor)
  }
}
