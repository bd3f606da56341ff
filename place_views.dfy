/** The place endpoints (backend/apps/places/views.py and the Place row of
    backend/apps/places/models.py): search, and the places of one trip with
    their ten-place limit, the duplicate check, the next order, deletion and
    reordering. */
module PlaceViews {
  import opened Common
  import opened TripModels

  /** The most places a trip holds. */
  const MaxPlaces := 10

  datatype PlaceError =
    | MissingQuery        // 400 MISSING_QUERY
    | PlaceLimitExceeded  // 400 PLACE_LIMIT_EXCEEDED
    | InvalidPayload      // 400 from the serializer
    | DuplicatePlace      // 400 DUPLICATE_PLACE
    | NotFound            // 404
    | ServerError         // an uncaught exception: 500

  // ---------------------------------------------------------------------
  // search

  datatype SearchResult = SearchResult(placeId: string, name: string, formattedAddress: string,
                                       lat: real, lng: real, types: seq<string>,
                                       rating: Option<real>, userRatingsTotal: Option<int>)

  /** The Places text search, given the query, the optional centre and the
      optional radius exactly as they arrived. */
  type PlaceSearch = (string, Option<string>, Option<string>) -> seq<SearchResult>

  /** `search`: a missing or empty query is refused before the maps
      service is asked; otherwise its results are passed on. */
  function Search(query: Option<string>, location: Option<string>, radius: Option<string>,
                  search: PlaceSearch): (r: Result<seq<SearchResult>, PlaceError>)
    ensures r.Err? <==> query.None? || query.value == ""
    ensures r.Err? ==> r.error == MissingQuery
    ensures r.Ok? ==> r.value == search(query.value, location, radius)
  {
    if query.None? || query.value == "" then Err(MissingQuery)
    else Ok(search(query.value, location, radius))
  }

  // ---------------------------------------------------------------------
  // Place rows

  datatype PlaceRow = PlaceRow(id: int, placeId: string, name: string, lat: real, lng: real, order: real)

  /** The create payload once the serializer accepted it. */
  datatype PlacePayload = PlacePayload(placeId: string, name: string, lat: real, lng: real)

  predicate HasPlaceId(places: seq<PlaceRow>, placeId: string) {
    exists k :: 0 <= k < |places| && places[k].placeId == placeId
  }

  /** `aggregate(Max('order'))`: None for a trip without places. */
  function MaxOrder(places: seq<PlaceRow>): (m: Option<real>)
    ensures m.None? <==> places == []
    ensures m.Some? ==> forall k :: 0 <= k < |places| ==> places[k].order <= m.value
    ensures m.Some? ==> exists k :: 0 <= k < |places| && places[k].order == m.value
    decreases |places|
  {
    if places == [] then None
    else
      var rest := MaxOrder(places[1..]);
      if rest.None? || places[0].order >= rest.value then Some(places[0].order)
      else
        assert forall k :: 1 <= k < |places| ==> places[k] == places[1..][k - 1];
        rest
  }

  /** `(max_order or 0) + 1.0`: one past the largest order, or 1 for the
      first place. */
  function NextOrder(places: seq<PlaceRow>): (o: real)
    ensures places == [] ==> o == 1.0
    ensures forall k :: 0 <= k < |places| ==> places[k].order < o
    ensures places != [] ==> exists k :: 0 <= k < |places| && places[k].order + 1.0 == o
  {
    match MaxOrder(places)
    case None => 1.0
    case Some(m) => m + 1.0
  }

  /** `(max_order or 0) + 1.0` as written: the maximum of the two-decimal
      `order` column is a Decimal, and adding the float 1.0 to a Decimal
      raises TypeError, a server error. Only a missing maximum, or a zero
      one (falsy, so `or` falls back to the int 0), gives 1.0. */
  function NextOrderAsWritten(places: seq<PlaceRow>): (r: Result<real, PlaceError>)
    ensures r.Err? <==> MaxOrder(places).Some? && MaxOrder(places).value != 0.0
    ensures r.Err? ==> r.error == ServerError
    ensures r.Ok? ==> r.value == 1.0
  {
    match MaxOrder(places)
    case None => Ok(1.0)
    case Some(m) => if m == 0.0 then Ok(1.0) else Err(ServerError)
  }

  /** Where the written next order answers at all, it agrees with the
      intended one. */
  lemma NextOrderAsWrittenAgrees(places: seq<PlaceRow>)
    ensures NextOrderAsWritten(places).Ok? ==> NextOrderAsWritten(places).value == NextOrder(places)
  {
  }

  /** The first place of a trip gets order 1, so adding a second one fails
      as written, where the intended order is 2. */
  lemma SecondPlaceFailsAsWritten(first: PlaceRow)
    requires first.order == 1.0
    ensures NextOrderAsWritten([first]) == Err(ServerError)
    ensures NextOrder([first]) == 2.0
  {
    assert MaxOrder([first]) == Some(1.0);
  }

  /** The rows in `order_by('order')` order; rows of equal order keep their
      table order. */
  function InsertByOrder(p: PlaceRow, s: seq<PlaceRow>): (r: seq<PlaceRow>)
    ensures |r| == |s| + 1
    decreases |s|
  {
    if s == [] then [p]
    else if s[0].order <= p.order then [s[0]] + InsertByOrder(p, s[1..])
    else [p] + s
  }

  function SortByOrder(s: seq<PlaceRow>): (r: seq<PlaceRow>)
    ensures |r| == |s|
    decreases |s|
  {
    if s == [] then [] else InsertByOrder(s[|s| - 1], SortByOrder(s[..|s| - 1]))
  }

  predicate SortedByOrder(s: seq<PlaceRow>) {
    forall i, j :: 0 <= i < j < |s| ==> s[i].order <= s[j].order
  }

  lemma {:induction false} InsertByOrderSorted(p: PlaceRow, s: seq<PlaceRow>)
    requires SortedByOrder(s)
    ensures SortedByOrder(InsertByOrder(p, s))
    ensures multiset(InsertByOrder(p, s)) == multiset(s) + multiset{p}
    decreases |s|
  {
    if s != [] && s[0].order <= p.order {
      InsertByOrderSorted(p, s[1..]);
      assert s == [s[0]] + s[1..];
      InsertHeadSorted(s[0], InsertByOrder(p, s[1..]), s[1..], p);
    }
  }

  lemma InsertHeadSorted(h: PlaceRow, t: seq<PlaceRow>, s: seq<PlaceRow>, p: PlaceRow)
    requires SortedByOrder(t) && multiset(t) == multiset(s) + multiset{p}
    requires forall x :: x in s ==> h.order <= x.order
    requires h.order <= p.order
    ensures SortedByOrder([h] + t)
  {
    forall j | 0 <= j < |t|
      ensures h.order <= t[j].order
    {
      assert t[j] in multiset(t);
      assert t[j] == p || t[j] in multiset(s);
    }
  }

  /** The query order is sorted by order and rearranges the rows. */
  lemma {:induction false} SortByOrderSorted(s: seq<PlaceRow>)
    ensures SortedByOrder(SortByOrder(s))
    ensures multiset(SortByOrder(s)) == multiset(s)
    decreases |s|
  {
    if s != [] {
      var front, last := s[..|s| - 1], s[|s| - 1];
      SortByOrderSorted(front);
      SortByOrderSnoc(s, front, last);
    }
  }

  /** Inserting the last row into the sorted front keeps both facts. */
  lemma SortByOrderSnoc(s: seq<PlaceRow>, front: seq<PlaceRow>, last: PlaceRow)
    requires s != [] && front == s[..|s| - 1] && last == s[|s| - 1]
    requires SortedByOrder(SortByOrder(front)) && multiset(SortByOrder(front)) == multiset(front)
    ensures SortedByOrder(SortByOrder(s)) && multiset(SortByOrder(s)) == multiset(s)
  {
    InsertByOrderSorted(last, SortByOrder(front));
    assert SortByOrder(s) == InsertByOrder(last, SortByOrder(front));
    assert s == front + [last];
  }

  // ---------------------------------------------------------------------
  // reorder

  datatype ReorderItem = ReorderItem(id: int, order: real)

  function IndexOfPlace(places: seq<PlaceRow>, id: int): (r: Option<nat>)
    ensures r.Some? ==> r.value < |places| && places[r.value].id == id
    ensures r.Some? ==> forall k :: 0 <= k < r.value ==> places[k].id != id
    ensures r.None? <==> forall k :: 0 <= k < |places| ==> places[k].id != id
    decreases |places|
  {
    if places == [] then None
    else if places[0].id == id then Some(0)
    else match IndexOfPlace(places[1..], id)
      case None => None
      case Some(k) => Some(k + 1)
  }

  /** The last order the items give to `id`, if any. */
  function LastOrderFor(items: seq<ReorderItem>, id: int): (r: Option<real>)
    ensures r.Some? ==> exists k :: 0 <= k < |items| && items[k].id == id && items[k].order == r.value
    ensures r.None? <==> forall k :: 0 <= k < |items| ==> items[k].id != id
    decreases |items|
  {
    if items == [] then None
    else if items[|items| - 1].id == id then Some(items[|items| - 1].order)
    else
      var r := LastOrderFor(items[..|items| - 1], id);
      assert forall k :: 0 <= k < |items| - 1 ==> items[..|items| - 1][k] == items[k];
      r
  }

  /** The rows after the items' orders are saved: a listed place has its
      last listed order, the others keep theirs. */
  function OrdersWritten(places: seq<PlaceRow>, items: seq<ReorderItem>): (r: seq<PlaceRow>)
    ensures |r| == |places|
    ensures forall k :: 0 <= k < |places| ==>
      r[k] == match LastOrderFor(items, places[k].id)
              case None => places[k]
              case Some(o) => places[k].(order := o)
  {
    seq(|places|, k requires 0 <= k < |places| =>
      match LastOrderFor(items, places[k].id)
      case None => places[k]
      case Some(o) => places[k].(order := o))
  }

  /** The first item whose id is not a place of the trip. */
  function FirstMissing(places: seq<PlaceRow>, items: seq<ReorderItem>): (r: Option<nat>)
    ensures r.Some? ==> r.value < |items| && IndexOfPlace(places, items[r.value].id).None?
    ensures r.Some? ==> forall k :: 0 <= k < r.value ==> IndexOfPlace(places, items[k].id).Some?
    ensures r.None? ==> forall k :: 0 <= k < |items| ==> IndexOfPlace(places, items[k].id).Some?
    decreases |items|
  {
    if items == [] then None
    else if IndexOfPlace(places, items[0].id).None? then Some(0)
    else
      match FirstMissing(places, items[1..])
      case None => None
      case Some(k) => Some(k + 1)
  }

  predicate UniqueIds(places: seq<PlaceRow>) {
    forall i, j :: 0 <= i < j < |places| ==> places[i].id != places[j].id
  }

  predicate UniquePlaceIds(places: seq<PlaceRow>) {
    forall i, j :: 0 <= i < j < |places| ==> places[i].placeId != places[j].placeId
  }

  lemma OrdersWrittenStep(places: seq<PlaceRow>, items: seq<ReorderItem>, i: nat, idx: nat)
    requires UniqueIds(places) && i < |items| && idx < |places| && places[idx].id == items[i].id
    ensures OrdersWritten(places, items[..i + 1]) ==
      OrdersWritten(places, items[..i])[idx := OrdersWritten(places, items[..i])[idx].(order := items[i].order)]
  {
    var a := OrdersWritten(places, items[..i + 1]);
    var b := OrdersWritten(places, items[..i]);
    assert items[..i + 1][..i] == items[..i];
    forall k | 0 <= k < |places|
      ensures a[k] == b[idx := b[idx].(order := items[i].order)][k]
    {
      if k != idx {
        assert places[k].id != places[idx].id by {
          if k < idx {} else {}
        }
      }
    }
  }

  /** Saving orders moves no row and changes no id or place id. */
  lemma OrdersWrittenKeepsRows(places: seq<PlaceRow>, items: seq<ReorderItem>, id: int)
    ensures forall k :: 0 <= k < |places| ==>
      OrdersWritten(places, items)[k].id == places[k].id &&
      OrdersWritten(places, items)[k].placeId == places[k].placeId
    ensures UniqueIds(places) ==> UniqueIds(OrdersWritten(places, items))
    ensures UniquePlaceIds(places) ==> UniquePlaceIds(OrdersWritten(places, items))
    ensures IndexOfPlace(OrdersWritten(places, items), id) == IndexOfPlace(places, id)
  {
    var w := OrdersWritten(places, items);
    assert forall k :: 0 <= k < |places| ==> w[k].id == places[k].id && w[k].placeId == places[k].placeId;
    var a, b := IndexOfPlace(w, id), IndexOfPlace(places, id);
    if a.Some? && b.Some? {
      assert !(a.value < b.value) && !(b.value < a.value);
    }
  }

  lemma IndexAfterWrites(places: seq<PlaceRow>, items: seq<ReorderItem>, id: int)
    ensures IndexOfPlace(OrdersWritten(places, items), id) == IndexOfPlace(places, id)
  {
    OrdersWrittenKeepsRows(places, items, id);
  }

  /** The first `i` items all name a place of the trip. */
  predicate AllFound(places: seq<PlaceRow>, items: seq<ReorderItem>, i: nat)
    requires i <= |items|
  {
    forall k :: 0 <= k < i ==> IndexOfPlace(places, items[k].id).Some?
  }

  lemma FoundStep(places: seq<PlaceRow>, items: seq<ReorderItem>, i: nat)
    requires i < |items| && IndexOfPlace(places, items[i].id).Some? && AllFound(places, items, i)
    ensures AllFound(places, items, i + 1)
  {
  }

  lemma FirstMissingAt(places: seq<PlaceRow>, items: seq<ReorderItem>, i: nat)
    requires i < |items| && IndexOfPlace(places, items[i].id).None? && AllFound(places, items, i)
    ensures FirstMissing(places, items) == Some(i)
    decreases i
  {
    if i > 0 {
      assert AllFound(places, items[1..], i - 1) by {
        forall k | 0 <= k < i - 1 ensures IndexOfPlace(places, items[1..][k].id).Some? {
          assert items[1..][k] == items[k + 1];
        }
      }
      FirstMissingAt(places, items[1..], i - 1);
    }
  }

  lemma FirstMissingNone(places: seq<PlaceRow>, items: seq<ReorderItem>)
    requires AllFound(places, items, |items|)
    ensures FirstMissing(places, items).None?
    decreases |items|
  {
    if items != [] {
      FirstMissingNone(places, items[1..]);
    }
  }

  datatype ReorderResponse = ReorderResponse(places: seq<PlaceRow>, routeSummary: RouteSummary)

  /** The places of one trip, once `get_trip` has found it and it has not
      expired: the intended lookup, RouteViews.GetTrip. As written the
      lookup fails for every trip (RouteViews.GetTripAsWritten). */
  class TripPlaces {
    var places: seq<PlaceRow>
    var nextId: int

    /** Ids are unique and below the next id; `unique_together (trip,
        place_id)` keeps place ids unique. */
    ghost predicate Valid()
      reads this
    {
      UniqueIds(places) && UniquePlaceIds(places) &&
      forall k :: 0 <= k < |places| ==> places[k].id < nextId
    }

    constructor()
      ensures Valid() && places == [] && nextId == 1
    {
      places := [];
      nextId := 1;
    }

    /** `create`: the limit is checked first, then the payload, then the
        duplicate; a new place goes one past the largest order, by the
        intended NextOrder rather than NextOrderAsWritten. */
    method Create(payload: Option<PlacePayload>) returns (r: Result<PlaceRow, PlaceError>)
      requires Valid()
      modifies this
      ensures Valid()
      ensures |old(places)| >= MaxPlaces ==> r == Err(PlaceLimitExceeded)
      ensures |old(places)| < MaxPlaces && payload.None? ==> r == Err(InvalidPayload)
      ensures |old(places)| < MaxPlaces && payload.Some? && HasPlaceId(old(places), payload.value.placeId) ==>
        r == Err(DuplicatePlace)
      ensures r.Ok? <==> |old(places)| < MaxPlaces && payload.Some? && !HasPlaceId(old(places), payload.value.placeId)
      ensures r.Err? ==> places == old(places) && nextId == old(nextId)
      ensures r.Ok? ==>
        |old(places)| < MaxPlaces && payload.Some? && !HasPlaceId(old(places), payload.value.placeId) &&
        r.value == PlaceRow(old(nextId), payload.value.placeId, payload.value.name,
                            payload.value.lat, payload.value.lng, NextOrder(old(places))) &&
        places == old(places) + [r.value] && nextId == old(nextId) + 1
      ensures |places| <= MaxPlaces || places == old(places)
    {
      if |places| >= MaxPlaces {
        return Err(PlaceLimitExceeded);
      }
      if payload.None? {
        return Err(InvalidPayload);
      }
      var data := payload.value;
      if HasPlaceId(places, data.placeId) {
        return Err(DuplicatePlace);
      }
      var order := NextOrder(places);
      var place := PlaceRow(nextId, data.placeId, data.name, data.lat, data.lng, order);
      places := places + [place];
      nextId := nextId + 1;
      r := Ok(place);
    }

    /** `destroy`: the place with that id in this trip, or 404. */
    method Destroy(id: int) returns (r: Result<(), PlaceError>)
      requires Valid()
      modifies this
      ensures Valid() && nextId == old(nextId)
      ensures r.Err? <==> forall k :: 0 <= k < |old(places)| ==> old(places)[k].id != id
      ensures r.Err? ==> r.error == NotFound && places == old(places)
      ensures r.Ok? ==> exists k :: (0 <= k < |old(places)| && old(places)[k].id == id &&
        places == old(places)[..k] + old(places)[k + 1..])
    {
      var idx := IndexOfPlace(places, id);
      if idx.None? {
        return Err(NotFound);
      }
      var k := idx.value;
      ghost var before := places;
      places := places[..k] + places[k + 1..];
      RemoveKeepsValid(before, k, places);
      r := Ok(());
    }

    /** `reorder`: each item's place is looked up and saved in turn. The
        first unknown id answers 404, and the orders saved before it stay,
        since no transaction wraps the loop. The answer lists the trip's
        places by order, with the trip's stored route summary. */
    method Reorder(trip: Trip, items: seq<ReorderItem>) returns (r: Result<ReorderResponse, PlaceError>)
      requires Valid()
      modifies this
      ensures Valid() && nextId == old(nextId)
      ensures r.Err? <==> FirstMissing(old(places), items).Some?
      ensures r.Err? ==> (r.error == NotFound &&
        places == OrdersWritten(old(places), items[..FirstMissing(old(places), items).value]))
      ensures r.Ok? ==> (places == OrdersWritten(old(places), items) &&
        r.value == ReorderResponse(SortByOrder(places), RouteSummaryOf(trip)))
    {
      var saved, missing := SaveOrders(places, items);
      WrittenValid(places, items[..if missing.Some? then missing.value else |items|], nextId);
      places := saved;
      if missing.Some? {
        return Err(NotFound);
      }
      assert items[..|items|] == items;
      r := Ok(ReorderResponse(SortByOrder(places), RouteSummaryOf(trip)));
    }
  }

  /** The loop of `reorder`: the items saved in turn until the first one
      that names no place of the trip. */
  method SaveOrders(places0: seq<PlaceRow>, items: seq<ReorderItem>)
    returns (places: seq<PlaceRow>, missing: Option<nat>)
    requires UniqueIds(places0)
    ensures missing == FirstMissing(places0, items)
    ensures missing.Some? ==> places == OrdersWritten(places0, items[..missing.value])
    ensures missing.None? ==> places == OrdersWritten(places0, items[..|items|])
  {
    places := places0;
    assert OrdersWritten(places0, items[..0]) == places0;
    for i := 0 to |items|
      invariant places == OrdersWritten(places0, items[..i])
      invariant AllFound(places0, items, i)
    {
      var idx := IndexOfPlace(places, items[i].id);
      IndexAfterWrites(places0, items[..i], items[i].id);
      if idx.None? {
        FirstMissingAt(places0, items, i);
        return places, Some(i);
      }
      FoundStep(places0, items, i);
      OrdersWrittenStep(places0, items, i, idx.value);
      places := places[idx.value := places[idx.value].(order := items[i].order)];
    }
    FirstMissingNone(places0, items);
    missing := None;
  }

  /** Saved orders keep the row invariants. */
  lemma WrittenValid(places: seq<PlaceRow>, items: seq<ReorderItem>, bound: int)
    requires UniqueIds(places) && UniquePlaceIds(places)
    requires forall k :: 0 <= k < |places| ==> places[k].id < bound
    ensures UniqueIds(OrdersWritten(places, items)) && UniquePlaceIds(OrdersWritten(places, items))
    ensures forall k :: 0 <= k < |places| ==> OrdersWritten(places, items)[k].id < bound
  {
    var w := OrdersWritten(places, items);
    assert forall k :: 0 <= k < |places| ==> w[k].id == places[k].id && w[k].placeId == places[k].placeId;
  }

  lemma RemoveKeepsValid(before: seq<PlaceRow>, k: nat, after: seq<PlaceRow>)
    requires k < |before| && after == before[..k] + before[k + 1..]
    ensures UniqueIds(before) ==> UniqueIds(after)
    ensures UniquePlaceIds(before) ==> UniquePlaceIds(after)
    ensures forall j :: 0 <= j < |after| ==> after[j] == if j < k then before[j] else before[j + 1]
  {
  }
}
