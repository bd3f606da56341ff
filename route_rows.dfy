/** The travel-segment and cost rows the itinerary engine reads and writes.
    Their model classes are not part of this model; the fields are the ones
    the engine uses. */
module RouteRows {
  import opened Common
  import opened EventModel

  type SegmentId = int
  type CostId = int

  /** A stored travel segment. `from` is absent for the leg that starts at the
      trip's start location. */
  datatype Segment = Segment(
    id: SegmentId,
    from: Option<EventId>,
    to: EventId,
    durationMin: int,
    distanceKm: real,
    polyline: string,
    travelMode: string,
    departureTime: string)

  /** A cost row, attached to an event or to a segment. */
  datatype Cost = Cost(
    id: CostId,
    eventId: Option<EventId>,
    segmentId: Option<SegmentId>,
    amount: real,
    currency: string,
    category: string,
    description: string)

  /** What the route provider returns for one leg; the polyline is optional in
      the provider's answer. */
  datatype RouteData = RouteData(durationMin: int, distanceKm: real, polyline: Option<string>)

  /** The route provider: a leg's route, or nothing when it fails or finds
      no route. */
  type Provider = (Location, Location) -> Option<RouteData>

  /** The four accepted travel modes. */
  predicate IsTravelMode(m: string) {
    m == "DRIVING" || m == "WALKING" || m == "TRANSIT" || m == "BICYCLING"
  }

  /** The field defaults assumed for a segment created with only its endpoints
      and travel mode. */
  const DEFAULT_DURATION: int := 0
  const DEFAULT_DISTANCE: real := 0.0

  function Durations(segs: seq<Segment>): (r: seq<int>)
    ensures |r| == |segs| && forall i :: 0 <= i < |segs| ==> r[i] == segs[i].durationMin
  {
    seq(|segs|, i requires 0 <= i < |segs| => segs[i].durationMin)
  }

  function Distances(segs: seq<Segment>): (r: seq<real>)
    ensures |r| == |segs| && forall i :: 0 <= i < |segs| ==> r[i] == segs[i].distanceKm
  {
    seq(|segs|, i requires 0 <= i < |segs| => segs[i].distanceKm)
  }
}
