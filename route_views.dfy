/** The route endpoints of a trip (backend/apps/routes/views.py): the trip
    lookup with its expiry check (as written, and as intended), `calculate` (the legs from the start
    location and between consecutive places, summed into the trip's totals),
    `optimize` (the place limit, the optimizer, the improvement figures and
    the new orders) and `apply_optimization` (order writes one event at a
    time, outside any transaction). */
module RouteViews {
  import opened Common
  import opened EventModel
  import opened TripModels
  import opened RouteRows
  import RouteOptimizer

  datatype RouteError =
    | NotFound          // 404
    | TripExpired       // ValidationError: HTTP 400 with code TRIP_EXPIRED
    | TooManyPlaces     // 400 TOO_MANY_PLACES
    | ServerError       // an exception no handler turns into a response: 500

  /** `get_trip` as written: after the 404 lookup it calls
      `trip.is_expired()`, a method the Trip model does not define, so every
      trip that exists raises AttributeError and the request ends in a
      server error. */
  function GetTripAsWritten(trip: Option<Trip>): (r: Result<Trip, RouteError>)
    ensures trip.None? <==> r == Err(NotFound)
    ensures trip.Some? <==> r == Err(ServerError)
  {
    if trip.None? then Err(NotFound) else Err(ServerError)
  }

  /** No trip gets past `get_trip` as written, so neither the route views
      nor the place views can answer anything but 404 or 500. */
  lemma NoTripPassesAsWritten(t: Trip)
    ensures !GetTripAsWritten(Some(t)).Ok?
    ensures GetTripAsWritten(Some(t)) == Err(ServerError)
  {
  }

  /** A found trip with the expiry field `get_trip` evidently expects. */
  datatype ExpiringTrip = ExpiringTrip(trip: Trip, expiresAt: int)

  /** The evident meaning of `is_expired`, by the rule the route cache's own
      `is_expired` uses: strictly past the expiry instant. */
  predicate TripIsExpired(t: ExpiringTrip, now: int) {
    now > t.expiresAt
  }

  /** `get_trip` as intended: the trip, or 404, or TRIP_EXPIRED. The
      ValidationError's `code=` argument sets the error code, not the
      status, so the expired answer is a 400. */
  function GetTrip(found: Option<ExpiringTrip>, now: int): (r: Result<Trip, RouteError>)
    ensures found.None? ==> r == Err(NotFound)
    ensures found.Some? && TripIsExpired(found.value, now) ==> r == Err(TripExpired)
    ensures found.Some? && !TripIsExpired(found.value, now) ==> r == Ok(found.value.trip)
    ensures r != Err(ServerError)
  {
    if found.None? then Err(NotFound)
    else if TripIsExpired(found.value, now) then Err(TripExpired)
    else Ok(found.value.trip)
  }

  /** A trip is served exactly up to and including its expiry instant, and
      from then on refused; there the intended lookup and the written one
      part ways. */
  lemma TripLiveUntilExpiry(t: ExpiringTrip, now: int)
    ensures GetTrip(Some(t), now).Ok? <==> now <= t.expiresAt
    ensures now <= t.expiresAt ==> GetTrip(Some(t), now) != GetTripAsWritten(Some(t.trip))
    ensures GetTrip(None, now) == GetTripAsWritten(None)
  {
  }

  // ---------------------------------------------------------------------
  // calculate

  /** A place of the `calculate` request. */
  datatype RoutePlace = RoutePlace(placeId: string, lat: real, lng: real)

  /** The two ways the view names a leg's ends: a coordinate dict (the start
      and the first place) or a place id string. */
  datatype Waypoint = Coordinates(lat: real, lng: real) | PlaceRef(placeId: string)

  /** The maps service's `calculate_route`: a route or None. */
  type WaypointProvider = (Waypoint, Waypoint) -> Option<RouteData>

  /** A leg the view asks for, with the ids it reports. */
  datatype LegRequest = LegRequest(origin: Waypoint, destination: Waypoint, fromPlaceId: string, toPlaceId: string)

  datatype RouteOut = RouteOut(fromPlaceId: string, toPlaceId: string, durationMin: int, distanceKm: real,
                               polyline: Option<string>)

  /** The legs `calculate` asks for: none without places; otherwise the
      start leg to the first place (by coordinates, reported from "start"),
      then each consecutive pair by place id. */
  function RequestedLegs(start: Location, places: seq<RoutePlace>): (r: seq<LegRequest>)
    ensures |r| == |places|
    ensures |places| > 0 ==>
      r[0] == LegRequest(Coordinates(start.lat, start.lng), Coordinates(places[0].lat, places[0].lng),
                         "start", places[0].placeId)
    ensures forall i :: 1 <= i < |places| ==>
      r[i] == LegRequest(PlaceRef(places[i - 1].placeId), PlaceRef(places[i].placeId),
                         places[i - 1].placeId, places[i].placeId)
  {
    if |places| == 0 then []
    else
      [LegRequest(Coordinates(start.lat, start.lng), Coordinates(places[0].lat, places[0].lng), "start", places[0].placeId)] +
      seq(|places| - 1, i requires 0 <= i < |places| - 1 =>
        LegRequest(PlaceRef(places[i].placeId), PlaceRef(places[i + 1].placeId), places[i].placeId, places[i + 1].placeId))
  }

  function RouteOf(leg: LegRequest, d: RouteData): RouteOut {
    RouteOut(leg.fromPlaceId, leg.toPlaceId, d.durationMin, d.distanceKm, d.polyline)
  }

  /** The routes of the legs that succeeded, in leg order; failed legs are
      left out. */
  function ServedRoutes(legs: seq<LegRequest>, provider: WaypointProvider): (r: seq<RouteOut>)
    ensures |r| <= |legs|
    decreases |legs|
  {
    if legs == [] then []
    else
      var init := ServedRoutes(legs[..|legs| - 1], provider);
      var last := legs[|legs| - 1];
      match provider(last.origin, last.destination)
      case None => init
      case Some(d) => init + [RouteOf(last, d)]
  }

  /** When every leg succeeds, there is one route per leg, in order. */
  lemma {:induction false} ServedRoutesAll(legs: seq<LegRequest>, provider: WaypointProvider)
    requires forall i :: 0 <= i < |legs| ==> provider(legs[i].origin, legs[i].destination).Some?
    ensures |ServedRoutes(legs, provider)| == |legs|
    ensures forall i :: 0 <= i < |legs| ==>
      ServedRoutes(legs, provider)[i] == RouteOf(legs[i], provider(legs[i].origin, legs[i].destination).value)
    decreases |legs|
  {
    if legs != [] {
      var init := legs[..|legs| - 1];
      ServedRoutesAll(init, provider);
    }
  }

  /** Every route reported comes from a leg asked for, with that leg's
      answer. */
  lemma {:induction false} ServedRoutesSound(legs: seq<LegRequest>, provider: WaypointProvider)
    ensures forall r :: r in ServedRoutes(legs, provider) ==>
      exists i :: 0 <= i < |legs| && provider(legs[i].origin, legs[i].destination).Some? &&
        r == RouteOf(legs[i], provider(legs[i].origin, legs[i].destination).value)
    decreases |legs|
  {
    if legs != [] {
      var init := legs[..|legs| - 1];
      ServedRoutesSound(init, provider);
      forall r | r in ServedRoutes(init, provider)
        ensures exists i :: (0 <= i < |legs| && provider(legs[i].origin, legs[i].destination).Some? &&
          r == RouteOf(legs[i], provider(legs[i].origin, legs[i].destination).value))
      {
        var i :| 0 <= i < |init| && provider(init[i].origin, init[i].destination).Some? &&
          r == RouteOf(init[i], provider(init[i].origin, init[i].destination).value);
        assert init[i] == legs[i];
      }
    }
  }

  /** One more leg adds its route when it succeeds and nothing when it
      fails. */
  lemma ServedStep(legs: seq<LegRequest>, i: nat, provider: WaypointProvider, route: Option<RouteData>)
    requires i < |legs| && route == provider(legs[i].origin, legs[i].destination)
    ensures route.None? ==> ServedRoutes(legs[..i + 1], provider) == ServedRoutes(legs[..i], provider)
    ensures route.Some? ==>
      ServedRoutes(legs[..i + 1], provider) == ServedRoutes(legs[..i], provider) + [RouteOf(legs[i], route.value)]
  {
    assert legs[..i + 1][..i] == legs[..i];
  }

  function RouteDurations(routes: seq<RouteOut>): (r: seq<int>)
    ensures |r| == |routes| && forall k :: 0 <= k < |routes| ==> r[k] == routes[k].durationMin
  {
    seq(|routes|, k requires 0 <= k < |routes| => routes[k].durationMin)
  }

  function RouteDistances(routes: seq<RouteOut>): (r: seq<real>)
    ensures |r| == |routes| && forall k :: 0 <= k < |routes| ==> r[k] == routes[k].distanceKm
  {
    seq(|routes|, k requires 0 <= k < |routes| => routes[k].distanceKm)
  }

  lemma RoutesSnoc(routes: seq<RouteOut>, r: RouteOut)
    ensures SumInts(RouteDurations(routes + [r])) == SumInts(RouteDurations(routes)) + r.durationMin
    ensures SumReals(RouteDistances(routes + [r])) == SumReals(RouteDistances(routes)) + r.distanceKm
  {
    assert RouteDurations(routes + [r])[..|routes|] == RouteDurations(routes);
    assert RouteDistances(routes + [r])[..|routes|] == RouteDistances(routes);
  }

  /** `calculate`: the routes of the legs that succeeded, and the trip with
      its totals set to the sums over exactly those routes. The response's
      two-decimal rounding of the distance is not modelled. */
  method Calculate(t: Trip, start: Location, places: seq<RoutePlace>, provider: WaypointProvider)
    returns (routes: seq<RouteOut>, saved: Trip)
    ensures routes == ServedRoutes(RequestedLegs(start, places), provider)
    ensures saved == t.(totalDurationMin := Some(SumInts(RouteDurations(routes))),
                        totalDistanceKm := Some(SumReals(RouteDistances(routes))))
  {
    var legs := RequestedLegs(start, places);
    routes := [];
    var totalDuration := 0;
    var totalDistance := 0.0;
    for i := 0 to |legs|
      invariant routes == ServedRoutes(legs[..i], provider)
      invariant totalDuration == SumInts(RouteDurations(routes))
      invariant totalDistance == SumReals(RouteDistances(routes))
    {
      var route := provider(legs[i].origin, legs[i].destination);
      ServedStep(legs, i, provider, route);
      if route.Some? {
        var out := RouteOf(legs[i], route.value);
        RoutesSnoc(routes, out);
        routes := routes + [out];
        totalDuration := totalDuration + out.durationMin;
        totalDistance := totalDistance + out.distanceKm;
      }
    }
    assert legs[..|legs|] == legs;
    saved := t.(totalDurationMin := Some(totalDuration), totalDistanceKm := Some(totalDistance));
  }

  // ---------------------------------------------------------------------
  // optimize

  /** The most places `optimize` accepts. */
  const MaxOptimizePlaces := 10

  /** A place of the `optimize` request; the start location is given the
      same shape, with empty ids. */
  datatype OptimizePlace = OptimizePlace(id: string, placeId: string, lat: real, lng: real)

  function StartPoint(start: Location): OptimizePlace {
    OptimizePlace("", "", start.lat, start.lng)
  }

  /** A place of the answer. The request declares no `name`, so
      `place.get('name', '')` is always empty. */
  datatype OptimizedPlace = OptimizedPlace(id: string, placeId: string, name: string, lat: real, lng: real, order: real)

  datatype OptimizeResponse = OptimizeResponse(
    originalDurationMin: int, originalDistanceKm: real,
    places: seq<OptimizedPlace>, optimizedDurationMin: int, optimizedDistanceKm: real,
    durationPercent: int, distancePercent: int)

  /** Python's `int()` on a number: truncation toward zero. */
  function Trunc(x: real): (n: int)
    ensures x >= 0.0 ==> n == x.Floor
    ensures x < 0.0 ==> n == -((-x).Floor)
    ensures (x >= 0.0 ==> 0 <= n) && (x <= 0.0 ==> n <= 0)
  {
    if x >= 0.0 then x.Floor else -((-x).Floor)
  }

  /** `max(0, int((o - n) / o * 100))`, 0 when `o` is not positive: never
      negative, 0 when nothing improved, and at most 100 when the new value
      is not negative. */
  function ImprovementPercent(o: real, n: real): (p: int)
    ensures p >= 0
    ensures o <= 0.0 || n >= o ==> p == 0
    ensures n >= 0.0 ==> p <= 100
  {
    if o > 0.0 then
      var x := (o - n) / o * 100.0;
      assert n >= 0.0 ==> x <= 100.0;
      assert n >= o ==> x <= 0.0;
      var d := Trunc(x);
      if d > 0 then d else 0
    else 0
  }

  /** The optimized places with `order` 1.0, 2.0, ... in their new
      sequence. */
  method WithOrders(route: seq<OptimizePlace>) returns (out: seq<OptimizedPlace>)
    ensures |out| == |route|
    ensures forall k :: 0 <= k < |route| ==>
      out[k] == OptimizedPlace(route[k].id, route[k].placeId, "", route[k].lat, route[k].lng, (k + 1) as real)
  {
    out := [];
    for idx := 0 to |route|
      invariant |out| == idx
      invariant forall k :: 0 <= k < idx ==>
        out[k] == OptimizedPlace(route[k].id, route[k].placeId, "", route[k].lat, route[k].lng, (k + 1) as real)
    {
      var place := route[idx];
      out := out + [OptimizedPlace(place.id, place.placeId, "", place.lat, place.lng, (idx + 1) as real)];
    }
  }

  /** The optimizer's promise about the route it returns: a reordering of
      the places, the places themselves when there are fewer than two, and
      never longer than the nearest-neighbour route. */
  predicate OptimizedRoute(dist: (OptimizePlace, OptimizePlace) -> real, s: OptimizePlace,
                           places: seq<OptimizePlace>, route: seq<OptimizePlace>)
  {
    && multiset(route) == multiset(places)
    && (|places| <= 1 ==> route == places)
    && (|places| > 1 ==>
          RouteOptimizer.RouteLength(dist, s, route) <=
          RouteOptimizer.RouteLength(dist, s, RouteOptimizer.NearestNeighborRoute(dist, s, places)))
  }

  /** What the response reports about a route: its places numbered 1, 2,
      ... in route order, both distances from `s`, durations of 3 minutes
      per kilometre truncated, and the improvement percentages. */
  predicate Reports(dist: (OptimizePlace, OptimizePlace) -> real, s: OptimizePlace,
                    places: seq<OptimizePlace>, route: seq<OptimizePlace>, resp: OptimizeResponse)
  {
    var o := RouteOptimizer.RouteLength(dist, s, places);
    var n := RouteOptimizer.RouteLength(dist, s, route);
    && |resp.places| == |route|
    && (forall k :: 0 <= k < |route| ==> resp.places[k].id == route[k].id && resp.places[k].order == (k + 1) as real)
    && resp.originalDistanceKm == o && resp.optimizedDistanceKm == n
    && resp.originalDurationMin == Trunc(o * 3.0) && resp.optimizedDurationMin == Trunc(n * 3.0)
    && resp.distancePercent == ImprovementPercent(o, n)
    && resp.durationPercent == ImprovementPercent(Trunc(o * 3.0) as real, Trunc(n * 3.0) as real)
  }

  /** `optimize`: more than 10 places are refused before anything is
      computed. Otherwise the optimizer's route (two passes) is reported
      with orders 1, 2, ..., the distances before and after (from the start
      location), durations of 3 minutes per kilometre truncated, and
      improvement percentages that are never negative. `route` is the
      optimizer's answer. */
  method Optimize(dist: (OptimizePlace, OptimizePlace) -> real, start: Location, places: seq<OptimizePlace>)
    returns (r: Result<OptimizeResponse, RouteError>, ghost route: seq<OptimizePlace>)
    ensures |places| > MaxOptimizePlaces <==> r == Err(TooManyPlaces)
    ensures r.Ok? ==> OptimizedRoute(dist, StartPoint(start), places, route)
    ensures r.Ok? ==> Reports(dist, StartPoint(start), places, route, r.value)
    ensures r.Ok? ==> r.value.durationPercent >= 0 && r.value.distancePercent >= 0
  {
    if |places| > MaxOptimizePlaces {
      return Err(TooManyPlaces), [];
    }
    var s := StartPoint(start);
    var optimizedPlaces := OptimizeTwoPasses(dist, s, places);
    route := optimizedPlaces;
    var resp := Respond(dist, s, places, optimizedPlaces);
    r := Ok(resp);
  }

  /** The optimizer run for two passes. */
  method OptimizeTwoPasses(dist: (OptimizePlace, OptimizePlace) -> real, s: OptimizePlace, places: seq<OptimizePlace>)
    returns (route: seq<OptimizePlace>)
    ensures OptimizedRoute(dist, s, places, route)
  {
    ghost var passes, converged;
    route, passes, converged := RouteOptimizer.Optimize(dist, s, places, 2);
  }

  /** The response for an optimized route: the distances before and after,
      the durations and percentages computed from them, and the route
      numbered. */
  method Respond(dist: (OptimizePlace, OptimizePlace) -> real, s: OptimizePlace,
                 places: seq<OptimizePlace>, route: seq<OptimizePlace>)
    returns (resp: OptimizeResponse)
    ensures Reports(dist, s, places, route, resp)
  {
    var originalDistance := RouteOptimizer.RouteDistance(dist, s, places);
    var optimizedDistance := RouteOptimizer.RouteDistance(dist, s, route);
    var distanceImprovement := ImprovementPercent(originalDistance, optimizedDistance);
    var withOrder := WithOrders(route);
    var originalDuration := Trunc(originalDistance * 3.0);
    var optimizedDuration := Trunc(optimizedDistance * 3.0);
    var durationImprovement := ImprovementPercent(originalDuration as real, optimizedDuration as real);
    resp := OptimizeResponse(originalDuration, originalDistance, withOrder, optimizedDuration, optimizedDistance,
                             durationImprovement, distanceImprovement);
    ReportsNumbered(dist, s, places, route, withOrder, resp);
  }

  /** A response built from the two distances and the numbered route
      reports that route. */
  lemma ReportsNumbered(dist: (OptimizePlace, OptimizePlace) -> real, s: OptimizePlace,
                        places: seq<OptimizePlace>, route: seq<OptimizePlace>, withOrder: seq<OptimizedPlace>,
                        resp: OptimizeResponse)
    requires |withOrder| == |route|
    requires forall k :: 0 <= k < |route| ==>
      withOrder[k] == OptimizedPlace(route[k].id, route[k].placeId, "", route[k].lat, route[k].lng, (k + 1) as real)
    requires resp.places == withOrder
    requires resp.originalDistanceKm == RouteOptimizer.RouteLength(dist, s, places)
    requires resp.optimizedDistanceKm == RouteOptimizer.RouteLength(dist, s, route)
    requires resp.originalDurationMin == Trunc(resp.originalDistanceKm * 3.0)
    requires resp.optimizedDurationMin == Trunc(resp.optimizedDistanceKm * 3.0)
    requires resp.distancePercent == ImprovementPercent(resp.originalDistanceKm, resp.optimizedDistanceKm)
    requires resp.durationPercent == ImprovementPercent(resp.originalDurationMin as real, resp.optimizedDurationMin as real)
    ensures Reports(dist, s, places, route, resp)
  {
  }

  // ---------------------------------------------------------------------
  // apply_optimization

  /** An item of the request: the serializer declares `places` only, so
      that list is the one read; `order` is a float. */
  datatype OrderItem = OrderItem(id: EventId, order: real)

  function IndexOfEvent(events: seq<Event>, id: EventId): (r: Option<nat>)
    ensures r.Some? ==> r.value < |events| && events[r.value].id == id
    ensures r.None? ==> forall k :: 0 <= k < |events| ==> events[k].id != id
  {
    IndexOfId(events, id)
  }

  /** The last order an item gives to `id`, if any. */
  function LastOrderFor(items: seq<OrderItem>, id: EventId): (r: Option<real>)
    ensures r.Some? ==> exists k :: 0 <= k < |items| && items[k].id == id && items[k].order == r.value
    ensures r.None? <==> forall k :: 0 <= k < |items| ==> items[k].id != id
    decreases |items|
  {
    if items == [] then None
    else if items[|items| - 1].id == id then Some(items[|items| - 1].order)
    else
      var r := LastOrderFor(items[..|items| - 1], id);
      assert forall k :: 0 <= k < |items| - 1 ==> items[..|items| - 1][k] == items[k];
      r
  }

  /** The events after the items' orders are written: a listed event gets
      the integer part of its last listed order (the field is an integer),
      the rest keep theirs. */
  function OrdersWritten(events: seq<Event>, items: seq<OrderItem>): (r: seq<Event>)
    ensures |r| == |events|
    ensures forall k :: 0 <= k < |events| ==>
      r[k] == match LastOrderFor(items, events[k].id)
              case None => events[k]
              case Some(o) => events[k].(order := Trunc(o))
  {
    seq(|events|, k requires 0 <= k < |events| =>
      match LastOrderFor(items, events[k].id)
      case None => events[k]
      case Some(o) => events[k].(order := Trunc(o)))
  }

  /** The first item whose id is not an event of the trip. */
  function FirstMissing(events: seq<Event>, items: seq<OrderItem>): (r: Option<nat>)
    ensures r.Some? ==> r.value < |items| && IndexOfEvent(events, items[r.value].id).None?
    ensures r.Some? ==> forall k :: 0 <= k < r.value ==> IndexOfEvent(events, items[k].id).Some?
    ensures r.None? ==> forall k :: 0 <= k < |items| ==> IndexOfEvent(events, items[k].id).Some?
    decreases |items|
  {
    if items == [] then None
    else if IndexOfEvent(events, items[0].id).None? then Some(0)
    else
      match FirstMissing(events, items[1..])
      case None => None
      case Some(k) => Some(k + 1)
  }

  /** Writing one more item changes just the event it names. */
  lemma OrdersWrittenStep(events: seq<Event>, items: seq<OrderItem>, i: nat, idx: nat)
    requires UniqueIds(events) && i < |items| && idx < |events| && events[idx].id == items[i].id
    ensures OrdersWritten(events, items[..i + 1]) ==
      OrdersWritten(events, items[..i])[idx := OrdersWritten(events, items[..i])[idx].(order := Trunc(items[i].order))]
  {
    var a := OrdersWritten(events, items[..i + 1]);
    var b := OrdersWritten(events, items[..i]);
    assert items[..i + 1][..i] == items[..i];
    forall k | 0 <= k < |events|
      ensures a[k] == b[idx := b[idx].(order := Trunc(items[i].order))][k]
    {
      if k != idx {
        UniqueIdsDiffer(events, k, idx);
      }
    }
  }

  lemma UniqueIdsDiffer(events: seq<Event>, k: nat, idx: nat)
    requires UniqueIds(events) && k < |events| && idx < |events| && k != idx
    ensures events[k].id != events[idx].id
  {
    UniqueIndex(events, k);
  }

  /** A trip's events, as `apply_optimization` sees them. */
  class TripEvents {
    var events: seq<Event>

    ghost predicate Valid()
      reads this
    {
      UniqueIds(events)
    }

    constructor(events0: seq<Event>)
      requires UniqueIds(events0)
      ensures Valid() && events == events0
    {
      events := events0;
    }

    /** `apply_optimization`: each item's event is looked up and saved in
        turn. The first unknown id answers 404, and the writes before it
        stay, since no transaction wraps the loop. */
    method ApplyOptimization(items: seq<OrderItem>) returns (r: Result<(), RouteError>)
      requires Valid()
      modifies this
      ensures Valid()
      ensures r.Err? <==> FirstMissing(old(events), items).Some?
      ensures r.Err? ==> (r.error == NotFound &&
        events == OrdersWritten(old(events), items[..FirstMissing(old(events), items).value]))
      ensures r.Ok? ==> events == OrdersWritten(old(events), items)
    {
      ghost var events0 := events;
      assert OrdersWritten(events0, items[..0]) == events0;
      for i := 0 to |items|
        invariant Valid()
        invariant events == OrdersWritten(events0, items[..i])
        invariant AllFound(events0, items, i)
      {
        var idx := IndexOfEvent(events, items[i].id);
        OrdersWrittenKeepsIds(events0, items[..i], items[i].id);
        if idx.None? {
          FirstMissingAt(events0, items, i);
          return Err(NotFound);
        }
        FoundStep(events0, items, i);
        OrdersWrittenStep(events0, items, i, idx.value);
        OrdersWrittenKeepsIds(events0, items[..i + 1], items[i].id);
        events := events[idx.value := events[idx.value].(order := Trunc(items[i].order))];
      }
      assert items[..|items|] == items;
      FirstMissingNone(events0, items);
      r := Ok(());
    }
  }

  /** Each of the first `i` items names an event. */
  predicate AllFound(events: seq<Event>, items: seq<OrderItem>, i: nat)
    requires i <= |items|
  {
    forall k :: 0 <= k < i ==> IndexOfEvent(events, items[k].id).Some?
  }

  lemma FoundStep(events: seq<Event>, items: seq<OrderItem>, i: nat)
    requires i < |items| && IndexOfEvent(events, items[i].id).Some? && AllFound(events, items, i)
    ensures AllFound(events, items, i + 1)
  {
  }

  lemma FirstMissingAt(events: seq<Event>, items: seq<OrderItem>, i: nat)
    requires i < |items| && IndexOfEvent(events, items[i].id).None? && AllFound(events, items, i)
    ensures FirstMissing(events, items) == Some(i)
    decreases i
  {
    if i > 0 {
      assert AllFound(events, items[1..], i - 1) by {
        forall k | 0 <= k < i - 1 ensures IndexOfEvent(events, items[1..][k].id).Some? {
          assert items[1..][k] == items[k + 1];
        }
      }
      FirstMissingAt(events, items[1..], i - 1);
    }
  }

  lemma FirstMissingNone(events: seq<Event>, items: seq<OrderItem>)
    requires AllFound(events, items, |items|)
    ensures FirstMissing(events, items).None?
    decreases |items|
  {
    if items != [] {
      FirstMissingNone(events, items[1..]);
    }
  }

  /** Writing orders keeps every row's id where it was. */
  lemma OrdersWrittenKeepsIds(events: seq<Event>, items: seq<OrderItem>, id: EventId)
    ensures forall k :: 0 <= k < |events| ==> OrdersWritten(events, items)[k].id == events[k].id
    ensures UniqueIds(events) ==> UniqueIds(OrdersWritten(events, items))
    ensures IndexOfEvent(OrdersWritten(events, items), id) == IndexOfEvent(events, id)
  {
    var w := OrdersWritten(events, items);
    assert forall k :: 0 <= k < |events| ==> w[k].id == events[k].id;
    var a, b := IndexOfEvent(w, id), IndexOfEvent(events, id);
    if a.Some? && b.Some? {
      assert !(a.value < b.value) && !(b.value < a.value);
    }
  }
}
