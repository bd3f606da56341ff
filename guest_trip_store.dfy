/** The guest trip store of the frontend (`stores/tripStore.ts`): one
    optional current trip, replaced wholesale by each action, persisted
    without its directions result and migrated on load. The uuid generator
    and the clock are parameters of the actions that use them. */
module GuestTripStore {
  import opened Common
  import opened FrontendTypes

  datatype UserType = Guest | User

  /** The directions result of the map library, kept only in memory. */
  datatype Directions = Directions(legs: seq<RouteSummary>)

  datatype GuestTrip = GuestTrip(
    id: string,
    ownerType: UserType,
    title: string,
    city: string,
    cityLocation: Location,
    places: seq<Place>,
    routeSummary: RouteSummary,
    createdAt: string,
    updatedAt: string,
    directionsResult: Option<Directions>)

  /** A place as the caller hands it to `addPlace`: without id and order. */
  datatype PlaceData = PlaceData(placeId: string, name: string, lat: real, lng: real)

  /** The most places a guest trip takes. */
  const MaxPlaces := 10

  /** `uuid.slice(0, 8)`. */
  function ShortId(uuid: string): (s: string)
    ensures |s| == if |uuid| < 8 then |uuid| else 8
    ensures s <= uuid
  {
    if |uuid| <= 8 then uuid else uuid[..8]
  }

  /** `createTrip`: a guest trip with no places and a zero route summary. */
  function NewGuestTrip(title: string, city: string, cityLocation: Location, uuid: string, now: string): (t: GuestTrip)
    ensures t.ownerType == Guest && t.places == [] && t.routeSummary == RouteSummary(0.0, 0.0)
    ensures t.title == title && t.city == city && t.cityLocation == cityLocation
    ensures t.id == ShortId(uuid) && t.createdAt == now && t.updatedAt == now
    ensures t.directionsResult.None?
  {
    GuestTrip(ShortId(uuid), Guest, title, city, cityLocation, [], RouteSummary(0.0, 0.0), now, now, None)
  }

  /** `Math.max(...places.map(p => p.order))`. */
  function MaxOrder(places: seq<Place>): (m: real)
    requires |places| > 0
    ensures forall k :: 0 <= k < |places| ==> places[k].order <= m
    ensures exists k :: 0 <= k < |places| && places[k].order == m
  {
    if |places| == 1 then places[0].order
    else
      var m := MaxOrder(places[..|places| - 1]);
      assert forall k :: 0 <= k < |places| - 1 ==> places[..|places| - 1][k] == places[k];
      if places[|places| - 1].order > m then places[|places| - 1].order else m
  }

  /** The order of an added place: one more than the largest, or 1.0 for an
      empty trip; it is above every existing order. */
  function NextOrder(places: seq<Place>): (o: real)
    ensures forall k :: 0 <= k < |places| ==> places[k].order < o
    ensures |places| == 0 ==> o == 1.0
    ensures |places| > 0 ==> exists k :: 0 <= k < |places| && o == places[k].order + 1.0
  {
    (if |places| > 0 then MaxOrder(places) else 0.0) + 1.0
  }

  predicate HasPlaceId(places: seq<Place>, placeId: string) {
    exists k :: 0 <= k < |places| && places[k].placeId == placeId
  }

  /** `addPlace`: nothing without a trip, for a place id already present, or
      when the trip holds 10 places; otherwise the trip gains one place at
      the end, with the fresh id and an order above every other. */
  function WithPlace(cur: Option<GuestTrip>, data: PlaceData, uuid: string, now: string): (r: Option<GuestTrip>)
    ensures cur.None? ==> r.None?
    ensures cur.Some? && (HasPlaceId(cur.value.places, data.placeId) || |cur.value.places| >= MaxPlaces) ==> r == cur
    ensures cur.Some? && !HasPlaceId(cur.value.places, data.placeId) && |cur.value.places| < MaxPlaces ==>
      r.Some? &&
      r.value == cur.value.(places := r.value.places, updatedAt := now) &&
      |r.value.places| == |cur.value.places| + 1 &&
      r.value.places[..|cur.value.places|] == cur.value.places &&
      r.value.places[|cur.value.places|] ==
        Place(uuid, data.placeId, data.name, data.lat, data.lng, NextOrder(cur.value.places))
  {
    match cur
    case None => None
    case Some(t) =>
      if HasPlaceId(t.places, data.placeId) then cur
      else if |t.places| >= MaxPlaces then cur
      else
        var p := Place(uuid, data.placeId, data.name, data.lat, data.lng, NextOrder(t.places));
        var ps := t.places + [p];
        assert ps[..|t.places|] == t.places;
        Some(t.(places := ps, updatedAt := now))
  }

  /** A trip the store's own `addPlace` can build: at most 10 places, no
      place id twice. */
  predicate AddedPlacesValid(places: seq<Place>) {
    |places| <= MaxPlaces &&
    forall i, j :: 0 <= i < j < |places| ==> places[i].placeId != places[j].placeId
  }

  /** `addPlace` keeps the limit and the uniqueness of place ids. */
  lemma WithPlaceKeepsValid(cur: Option<GuestTrip>, data: PlaceData, uuid: string, now: string)
    requires cur.Some? && AddedPlacesValid(cur.value.places)
    ensures WithPlace(cur, data, uuid, now).Some?
    ensures AddedPlacesValid(WithPlace(cur, data, uuid, now).value.places)
  {
    var t := cur.value;
    if !HasPlaceId(t.places, data.placeId) && |t.places| < MaxPlaces {
      var ps := WithPlace(cur, data, uuid, now).value.places;
      forall i, j | 0 <= i < j < |ps|
        ensures ps[i].placeId != ps[j].placeId
      {
        if j == |t.places| {
          assert ps[i] == t.places[i];
        } else {
          assert ps[i] == t.places[i] && ps[j] == t.places[j];
        }
      }
    }
  }

  /** `places.filter(p => p.id !== placeId)`. */
  function WithoutId(places: seq<Place>, id: string): (r: seq<Place>)
    ensures |r| <= |places|
    ensures forall p :: p in r <==> p in places && p.id != id
  {
    if places == [] then []
    else
      var rest := WithoutId(places[1..], id);
      assert forall p :: p in places <==> p == places[0] || p in places[1..];
      if places[0].id == id then rest else [places[0]] + rest
  }

  /** The filter works piece by piece, so the places kept stay in their
      relative order. */
  lemma {:induction false} WithoutIdAppend(a: seq<Place>, b: seq<Place>, id: string)
    ensures WithoutId(a + b, id) == WithoutId(a, id) + WithoutId(b, id)
    decreases |a|
  {
    if a == [] {
      assert a + b == b;
    } else {
      assert (a + b)[0] == a[0] && (a + b)[1..] == a[1..] + b;
      WithoutIdAppend(a[1..], b, id);
    }
  }

  /** Removing twice removes no more than removing once. */
  lemma {:induction false} WithoutIdIdempotent(places: seq<Place>, id: string)
    ensures WithoutId(WithoutId(places, id), id) == WithoutId(places, id)
    decreases |places|
  {
    if places != [] {
      WithoutIdIdempotent(places[1..], id);
      if places[0].id != id {
        var rest := WithoutId(places[1..], id);
        assert ([places[0]] + rest)[1..] == rest;
      }
    }
  }

  /** `removePlace`: drops exactly the places with that internal id. */
  function WithoutPlace(cur: Option<GuestTrip>, id: string, now: string): (r: Option<GuestTrip>)
    ensures cur.None? <==> r.None?
    ensures cur.Some? ==>
      r.value == cur.value.(places := r.value.places, updatedAt := now) &&
      forall p :: p in r.value.places <==> p in cur.value.places && p.id != id
  {
    match cur
    case None => None
    case Some(t) => Some(t.(places := WithoutId(t.places, id), updatedAt := now))
  }

  /** The persisted state: the trip without its directions result. */
  function Partialize(cur: Option<GuestTrip>): (r: Option<GuestTrip>)
    ensures cur.None? <==> r.None?
    ensures cur.Some? ==> r.value == cur.value.(directionsResult := None)
  {
    match cur
    case None => None
    case Some(t) => Some(t.(directionsResult := None))
  }

  /** Saving and reloading gives the same trip up to the directions
      result, and saving again changes nothing. */
  lemma PartializeIdempotent(cur: Option<GuestTrip>)
    ensures Partialize(Partialize(cur)) == Partialize(cur)
  {
  }

  /** `currentTrip` in the store. Each action reads it and replaces it. */
  class TripStoreState {
    var currentTrip: Option<GuestTrip>

    constructor()
      ensures currentTrip.None?
    {
      currentTrip := None;
    }

    method CreateTrip(title: string, city: string, cityLocation: Location, uuid: string, now: string)
      modifies this
      ensures currentTrip == Some(NewGuestTrip(title, city, cityLocation, uuid, now))
    {
      currentTrip := Some(NewGuestTrip(title, city, cityLocation, uuid, now));
    }

    method AddPlace(data: PlaceData, uuid: string, now: string)
      modifies this
      ensures currentTrip == WithPlace(old(currentTrip), data, uuid, now)
    {
      if currentTrip.None? {
        return;
      }
      var t := currentTrip.value;
      var duplicate := false;
      for k := 0 to |t.places|
        invariant duplicate <==> exists j :: 0 <= j < k && t.places[j].placeId == data.placeId
      {
        if t.places[k].placeId == data.placeId {
          duplicate := true;
        }
      }
      if duplicate || |t.places| >= MaxPlaces {
        return;
      }
      var lastOrder := if |t.places| > 0 then MaxOrder(t.places) else 0.0;
      var newPlace := Place(uuid, data.placeId, data.name, data.lat, data.lng, lastOrder + 1.0);
      currentTrip := Some(t.(places := t.places + [newPlace], updatedAt := now));
    }

    method RemovePlace(id: string, now: string)
      modifies this
      ensures currentTrip == WithoutPlace(old(currentTrip), id, now)
    {
      if currentTrip.None? {
        return;
      }
      var t := currentTrip.value;
      currentTrip := Some(t.(places := WithoutId(t.places, id), updatedAt := now));
    }

    /** `updatePlaceOrder`: the list replaces the places as given. */
    method UpdatePlaceOrder(places: seq<Place>, now: string)
      modifies this
      ensures old(currentTrip).None? ==> currentTrip.None?
      ensures old(currentTrip).Some? ==>
        currentTrip == Some(old(currentTrip).value.(places := places, updatedAt := now))
    {
      if currentTrip.None? {
        return;
      }
      currentTrip := Some(currentTrip.value.(places := places, updatedAt := now));
    }

    method UpdateRouteSummary(summary: RouteSummary, now: string)
      modifies this
      ensures old(currentTrip).None? ==> currentTrip.None?
      ensures old(currentTrip).Some? ==>
        currentTrip == Some(old(currentTrip).value.(routeSummary := summary, updatedAt := now))
    {
      if currentTrip.None? {
        return;
      }
      currentTrip := Some(currentTrip.value.(routeSummary := summary, updatedAt := now));
    }

    method UpdateDirectionsResult(result: Option<Directions>, now: string)
      modifies this
      ensures old(currentTrip).None? ==> currentTrip.None?
      ensures old(currentTrip).Some? ==>
        currentTrip == Some(old(currentTrip).value.(directionsResult := result, updatedAt := now))
    {
      if currentTrip.None? {
        return;
      }
      currentTrip := Some(currentTrip.value.(directionsResult := result, updatedAt := now));
    }

    /** `optimizePlaces`: the places and the summary are replaced together. */
    method OptimizePlaces(places: seq<Place>, summary: RouteSummary, now: string)
      modifies this
      ensures old(currentTrip).None? ==> currentTrip.None?
      ensures old(currentTrip).Some? ==>
        currentTrip == Some(old(currentTrip).value.(places := places, routeSummary := summary, updatedAt := now))
    {
      if currentTrip.None? {
        return;
      }
      currentTrip := Some(currentTrip.value.(places := places, routeSummary := summary, updatedAt := now));
    }

    method ClearTrip()
      modifies this
      ensures currentTrip.None?
    {
      currentTrip := None;
    }
  }

  // ---------------------------------------------------------------------
  // migrate

  /** A trip as read back from storage, where a version-0 trip may carry
      `startLocation` in place of `cityLocation`. */
  datatype StoredTrip = StoredTrip(
    id: string,
    title: string,
    city: string,
    startLocation: Option<Location>,
    cityLocation: Option<Location>,
    places: seq<Place>,
    routeSummary: RouteSummary)

  /** `migrate`: from version 0, `startLocation` moves to `cityLocation` when
      that is absent; every other state comes back unchanged. */
  function Migrate(stored: Option<StoredTrip>, version: int): (r: Option<StoredTrip>)
    ensures stored.None? ==> r.None?
    ensures version == 0 && stored.Some? && stored.value.startLocation.Some? && stored.value.cityLocation.None? ==>
      r == Some(stored.value.(cityLocation := stored.value.startLocation, startLocation := None))
    ensures !(version == 0 && stored.Some? && stored.value.startLocation.Some? && stored.value.cityLocation.None?) ==>
      r == stored
  {
    if version == 0 && stored.Some? then
      var t := stored.value;
      if t.startLocation.Some? && t.cityLocation.None? then
        Some(t.(cityLocation := t.startLocation, startLocation := None))
      else stored
    else stored
  }

  /** Migrating a migrated state changes nothing, and a migrated trip keeps
      a city location whenever it had either location. */
  lemma MigrateIdempotent(stored: Option<StoredTrip>, version: int)
    ensures Migrate(Migrate(stored, version), version) == Migrate(stored, version)
    ensures version == 0 && stored.Some? && (stored.value.startLocation.Some? || stored.value.cityLocation.Some?) ==>
      Migrate(stored, version).value.cityLocation.Some?
  {
  }
}
