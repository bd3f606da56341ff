/** The trip's itinerary tables and the operations of TripEventViewSet
    (backend/apps/events/views.py) that change them: create, the segment
    reconciliation that follows create and reorder, update, destroy,
    reorder with its global rank and day rebalance, and update_route. One
    TripStore holds one trip's rows; a view's `transaction.atomic` block is
    all-or-nothing. */
module Itinerary {
  import opened Common
  import opened EventModel
  import opened RouteRows
  import opened TripModels
  import opened SegmentPairs
  import opened ItineraryRules

  /** The failures a view answers with: 404, the ValidationError (400) of
      `update_route`, and the 500 of an exception that escapes a view. */
  datatype ApiError = NotFound | NoNextEvent | ServerError

  /** One iteration of `for from_id, to_id in to_create`: the guards of the
      step in the source's order, then the provider call. `asked` says
      whether the provider was consulted. */
  method CreateLeg(t: Trip, all: seq<Event>, p: Pair, provider: Provider, id: SegmentId)
    returns (s: Option<Segment>, ghost asked: bool)
    ensures s == LegSegment(t, all, p, provider, id)
    ensures asked <==> LegEnds(t, all, p).Some?
  {
    var fromEvent := LegFrom(all, p);
    var toEvent := FindEvent(all, p.to);
    if toEvent.None? || !Located(toEvent.value) {
      return None, false;
    }
    var fromLocation := if fromEvent.None? then Some(StartLocation(t)) else LocationOf(fromEvent.value);
    if fromLocation.None? {
      return None, false;
    }
    asked := true;
    var route := provider(fromLocation.value, LocationOf(toEvent.value).value);
    if route.None? {
      return None, asked;
    }
    s := Some(Segment(id, if fromEvent.Some? then Some(fromEvent.value.id) else None, p.to,
                      route.value.durationMin, route.value.distanceKm, route.value.polyline.GetOr(""),
                      "DRIVING", ""));
  }

  /** An iteration order of a set: every member once, in an order the
      model leaves open, as Python's set iteration does. */
  method IterationOrder(pairs: set<Pair>) returns (order: seq<Pair>)
    ensures PairSet(order) == pairs && DistinctPairs(order)
  {
    order := [];
    var rest := pairs;
    while rest != {}
      invariant PairSet(order) + rest == pairs && PairSet(order) !! rest
      invariant DistinctPairs(order)
      decreases |rest|
    {
      var p :| p in rest;
      order := order + [p];
      rest := rest - {p};
    }
  }

  /** The creation step of reconciliation, `for from_id, to_id in
      to_create`, one pair at a time in the visiting order `order`. Returns
      the new rows, numbered from `firstId`, and the pairs the provider was
      asked about. */
  method CreateSegments(t: Trip, all: seq<Event>, order: seq<Pair>, provider: Provider, firstId: SegmentId)
    returns (created: seq<Segment>, ghost consulted: set<Pair>)
    ensures created == CreatedRows(t, all, order, provider, firstId)
    ensures consulted == Consulted(t, all, PairSet(order))
  {
    created := [];
    consulted := {};
    for i := 0 to |order|
      invariant created == CreatedRows(t, all, order[..i], provider, firstId)
      invariant consulted == Consulted(t, all, PairSet(order[..i]))
    {
      var leg, asked := CreateLeg(t, all, order[i], provider, firstId + |created|);
      CreatedRowsStep(t, all, order, i, provider, firstId, leg);
      ConsultedStep(t, all, order, i);
      if asked {
        consulted := consulted + {order[i]};
      }
      if leg.Some? {
        created := created + [leg.value];
      }
    }
    assert order[..|order|] == order;
  }

  /** The to-create pairs whose leg reaches the provider. */
  function Consulted(t: Trip, all: seq<Event>, pairs: set<Pair>): (r: set<Pair>)
    ensures forall p :: p in r <==> p in pairs && LegEnds(t, all, p).Some?
  {
    set p | p in pairs && LegEnds(t, all, p).Some?
  }

  lemma ConsultedStep(t: Trip, all: seq<Event>, order: seq<Pair>, i: nat)
    requires i < |order|
    ensures Consulted(t, all, PairSet(order[..i + 1])) ==
      if LegEnds(t, all, order[i]).Some? then Consulted(t, all, PairSet(order[..i])) + {order[i]}
      else Consulted(t, all, PairSet(order[..i]))
  {
    assert order[..i + 1] == order[..i] + [order[i]];
    assert PairSet(order[..i + 1]) == PairSet(order[..i]) + {order[i]};
  }

  /** One more visited pair adds its leg's row, if the leg succeeds. */
  lemma CreatedRowsStep(t: Trip, all: seq<Event>, order: seq<Pair>, i: nat, provider: Provider, firstId: SegmentId,
                        leg: Option<Segment>)
    requires i < |order|
    requires leg == LegSegment(t, all, order[i], provider, firstId + |CreatedRows(t, all, order[..i], provider, firstId)|)
    ensures leg.Some? ==>
      CreatedRows(t, all, order[..i + 1], provider, firstId) == CreatedRows(t, all, order[..i], provider, firstId) + [leg.value]
    ensures leg.None? ==>
      CreatedRows(t, all, order[..i + 1], provider, firstId) == CreatedRows(t, all, order[..i], provider, firstId)
  {
    var q := order[..i + 1];
    assert q[..|q| - 1] == order[..i] && q[|q| - 1] == order[i];
  }

  /** `_recalculate_segments_sequential` / `_smart_recalculate_segments`:
      the needed pairs from the events in query order, the diff against the
      stored pairs, the bulk delete of the stale segments (their costs
      cascade), one creation attempt per to-create pair, and the trip totals
      recomputed over every stored segment. `consulted` is the set of legs
      the provider was asked about: exactly the to-create pairs. */
  method ReconcileSegments(t: Trip, events: seq<Event>, segs: seq<Segment>, costs: seq<Cost>, provider: Provider,
                           firstId: SegmentId)
    returns (r: Result<seq<Segment>, PairsError>, t1: Trip, segs1: seq<Segment>, costs1: seq<Cost>,
             ghost consulted: set<Pair>)
    requires WellKeyed(events) && UniquePairs(segs) && UniqueSegmentIds(segs) && OneCostPerSegment(costs)
    requires IdsBelow(segs, firstId)
    ensures Reconciled(t, segs, costs, events, provider, firstId, t1, segs1, costs1)
    ensures UniquePairs(segs1) && UniqueSegmentIds(segs1) && OneCostPerSegment(costs1)
    ensures IdsBelow(segs1, firstId + |segs1|)
    ensures r.Err? <==> RequiredPairs(SortByKey(events)).Err?
    ensures r.Err? ==> consulted == {}
    ensures r.Ok? ==> (r.value == segs1 &&
      consulted == ToCreate(StoredPairs(segs), PairSet(RequiredPairs(SortByKey(events)).value)))
  {
    var all := SortByKey(events);
    var pairs := CalculateSegmentPairs(all);
    if pairs.Err? {
      return Err(pairs.error), t, segs, costs, {};
    }
    var needed := PairSet(pairs.value);
    var toCreate := ToCreate(StoredPairs(segs), needed);
    NeededLegsKnown(t, events, all, needed);
    // Delete the stale segments; their costs cascade.
    var kept := KeepNeeded(segs, needed);
    costs1 := WithoutSegmentCosts(costs, DeletedIds(segs, needed));
    // Create the missing ones.
    var order := IterationOrder(toCreate);
    var created;
    created, consulted := CreateSegments(t, all, order, provider, firstId);
    assert FromsKnown(all, order);
    CreatedRowsIds(t, all, order, provider, firstId);
    CreatedRowsLegs(t, all, order, provider, firstId);
    CreatedRowsPairs(t, all, order, provider, firstId);
    ReconcileDone(t, segs, costs, events, all, needed, provider, firstId, created);
    ReconcileKeepsTables(segs, costs, needed, firstId, created);
    segs1 := kept + created;
    t1 := WithRouteSummary(t, segs1);
    r := Ok(segs1);
  }

  /** The gap scan of `_check_and_rebalance_day` over one day's events in
      day_order: a day of fewer than two events never needs it, otherwise
      the first adjacent pair closer than the minimum gap decides. */
  method NeedsRebalance(dayEvents: seq<Event>) returns (b: bool)
    ensures b <==> |dayEvents| >= 2 && HasTightGap(dayEvents)
  {
    if |dayEvents| < 2 {
      return false;
    }
    var i := 0;
    while i < |dayEvents| - 1
      invariant 0 <= i <= |dayEvents| - 1
      invariant forall k :: 0 <= k < i ==> dayEvents[k + 1].dayOrder - dayEvents[k].dayOrder >= MIN_GAP
    {
      if dayEvents[i + 1].dayOrder - dayEvents[i].dayOrder < MIN_GAP {
        return true;
      }
      i := i + 1;
    }
    return false;
  }

  /** What `update_route` does to the tables. When the event is missing
      (404) or is the last of its day (400, no next event) nothing changes.
      Otherwise the leg is the event to the next event of its day: its stored
      segment is edited in place, or a segment with id `segId` is appended;
      the result is that segment; and the cost step runs on its costs, with
      `currency` defaulting to KRW and a new cost taking id `costId`. */
  ghost predicate RouteUpdated(events: seq<Event>, segs: seq<Segment>, costs: seq<Cost>, segId: SegmentId, costId: CostId,
                               id: EventId, travelMode: Option<string>, departure: Option<string>,
                               cost: Option<real>, currency: Option<string>,
                               r: Result<Segment, ApiError>, segs1: seq<Segment>, costs1: seq<Cost>)
  {
    match FindEvent(events, id)
    case None => r == Err(NotFound) && segs1 == segs && costs1 == costs
    case Some(e) =>
      match NextInDay(events, e.day, e.dayOrder)
      case None => r == Err(NoNextEvent) && segs1 == segs && costs1 == costs
      case Some(n) =>
        var p := Pair(Some(e.id), n.id);
        r.Ok? && SegPair(r.value) == p &&
        (IndexOfPair(segs, p).Some? ==>
           r.value == EditedSegment(segs[IndexOfPair(segs, p).value], travelMode, departure) &&
           segs1 == segs[IndexOfPair(segs, p).value := r.value]) &&
        (IndexOfPair(segs, p).None? ==>
           r.value == EditedSegment(FreshSegment(segId, p, travelMode), travelMode, departure) &&
           segs1 == segs + [r.value]) &&
        costs1 == CostsAfterEdit(costs, r.value.id, cost, currency.GetOr("KRW"), LegCostDescription(e, n), costId)
  }

  /** `update_route` on the tables: the event (404 when missing), the next
      event of its day (400 when none), then the segment and cost steps. */
  method UpdateRouteTables(events: seq<Event>, segs: seq<Segment>, costs: seq<Cost>, segId: SegmentId, costId: CostId,
                           id: EventId, travelMode: Option<string>, departure: Option<string>,
                           cost: Option<real>, currency: Option<string>)
    returns (r: Result<Segment, ApiError>, segs1: seq<Segment>, costs1: seq<Cost>)
    requires UniquePairs(segs) && UniqueSegmentIds(segs) && OneCostPerSegment(costs)
    requires IdsBelow(segs, segId)
    ensures RouteUpdated(events, segs, costs, segId, costId, id, travelMode, departure, cost, currency, r, segs1, costs1)
    ensures UniquePairs(segs1) && UniqueSegmentIds(segs1) && OneCostPerSegment(costs1)
    ensures IdsBelow(segs1, segId + 1)
  {
    var found := FindEvent(events, id);
    if found.None? {
      return Err(NotFound), segs, costs;
    }
    var e := found.value;
    var next := NextInDay(events, e.day, e.dayOrder);
    if next.None? {
      return Err(NoNextEvent), segs, costs;
    }
    var n := next.value;
    var seg;
    seg, segs1, costs1 := EditLeg(segs, costs, Pair(Some(e.id), n.id), travelMode, departure, cost,
                                  currency.GetOr("KRW"), LegCostDescription(e, n), segId, costId);
    r := Ok(seg);
  }

  /** The table steps of `update_route` for the leg `p`: `get_or_create`
      of its segment (a new one gets id `segId`), the mode and departure
      updates, and the cost step (a new cost gets id `costId`). */
  method EditLeg(segs: seq<Segment>, costs: seq<Cost>, p: Pair, travelMode: Option<string>, departure: Option<string>,
                 cost: Option<real>, currency: string, description: string, segId: SegmentId, costId: CostId)
    returns (seg: Segment, segs1: seq<Segment>, costs1: seq<Cost>)
    requires UniquePairs(segs) && UniqueSegmentIds(segs) && OneCostPerSegment(costs)
    requires IdsBelow(segs, segId)
    ensures SegPair(seg) == p
    ensures IndexOfPair(segs, p).Some? ==>
      seg == EditedSegment(segs[IndexOfPair(segs, p).value], travelMode, departure) &&
      segs1 == segs[IndexOfPair(segs, p).value := seg]
    ensures IndexOfPair(segs, p).None? ==>
      seg == EditedSegment(FreshSegment(segId, p, travelMode), travelMode, departure) && segs1 == segs + [seg]
    ensures costs1 == CostsAfterEdit(costs, seg.id, cost, currency, description, costId)
    ensures UniquePairs(segs1) && UniqueSegmentIds(segs1) && OneCostPerSegment(costs1)
    ensures IdsBelow(segs1, segId + 1)
  {
    var k := IndexOfPair(segs, p);
    if k.Some? {
      seg := EditedSegment(segs[k.value], travelMode, departure);
      segs1 := segs[k.value := seg];
      UniqueAfterEdit(segs, k.value, seg);
    } else {
      seg := EditedSegment(FreshSegment(segId, p, travelMode), travelMode, departure);
      UniqueAfterAppend(segs, seg, segId);
      segs1 := segs + [seg];
    }
    if cost.Some? && cost.value > 0.0 {
      UpsertKeepsOneCost(costs, seg.id, cost.value, currency, description, costId);
    } else if cost.Some? {
      DeleteDropsCosts(costs, seg.id);
    }
    costs1 := CostsAfterEdit(costs, seg.id, cost, currency, description, costId);
  }

  class TripStore {
    var trip: Trip
    /** The trip's events in table (id) order. */
    var events: seq<Event>
    var segments: seq<Segment>
    var costs: seq<Cost>
    var nextEventId: EventId
    var nextSegmentId: SegmentId
    var nextCostId: CostId

    ghost predicate Valid()
      reads this
    {
      && WellKeyed(events) && nextEventId >= 1
      && (forall e :: e in events ==> e.id < nextEventId)
      && UniquePairs(segments) && UniqueSegmentIds(segments)
      && IdsBelow(segments, nextSegmentId)
      && OneCostPerSegment(costs)
    }

    constructor(t: Trip)
      ensures Valid()
      ensures trip == t && events == [] && segments == [] && costs == []
    {
      trip := t;
      events := [];
      segments := [];
      costs := [];
      nextEventId := 1;
      nextSegmentId := 1;
      nextCostId := 1;
    }

    /** The reconciliation of the trip's segments (ReconcileSegments) with
        the results stored. The ghost parameters name the trip and the tables
        it starts from, so that callers can state the outcome against their
        own initial state. */
    method Reconcile(provider: Provider, ghost t0: Trip, ghost segs0: seq<Segment>, ghost costs0: seq<Cost>,
                     ghost firstId: SegmentId)
      returns (r: Result<seq<Segment>, PairsError>)
      requires Valid()
      requires t0 == trip && segs0 == segments && costs0 == costs && firstId == nextSegmentId
      modifies this
      ensures Valid()
      ensures events == old(events) && nextEventId == old(nextEventId) && nextCostId == old(nextCostId)
      ensures Reconciled(t0, segs0, costs0, events, provider, firstId, trip, segments, costs)
      ensures r.Err? <==> RequiredPairs(SortByKey(events)).Err?
      ensures r.Ok? ==> r.value == segments
    {
      var t1, segs1, costs1;
      ghost var consulted;
      r, t1, segs1, costs1, consulted := ReconcileSegments(trip, events, segments, costs, provider, nextSegmentId);
      trip, segments, costs, nextSegmentId := t1, segs1, costs1, nextSegmentId + |segs1|;
    }

    /** `create`: a new event last in its day (day_order one step above the
        day's greatest), global_order one above the trip's greatest, then a
        reconciliation whose failure is swallowed: the event stays and the
        stored segments are returned as they are. */
    method Create(input: EventInput, provider: Provider) returns (e: Event, segs: seq<Segment>)
      requires Valid()
      modifies this
      ensures Valid()
      ensures e == CreatedEvent(old(nextEventId), input, old(trip), old(events))
      ensures events == old(events) + [e]
      ensures Reconciled(old(trip), old(segments), old(costs), events, provider, old(nextSegmentId), trip, segments, costs)
      ensures segs == segments
    {
      e := CreatedEvent(nextEventId, input, trip, events);
      AppendKeepsKeys(events, e, nextEventId);
      events := events + [e];
      nextEventId := nextEventId + 1;
      var r := Reconcile(provider, old(trip), old(segments), old(costs), old(nextSegmentId));
      segs := segments;
    }

    /** `update`: the present fields of the patch written to the event; no
        segment is recomputed. */
    method Update(id: EventId, patch: EventPatch) returns (r: Result<Event, ApiError>)
      requires Valid()
      modifies this
      ensures Valid()
      ensures trip == old(trip) && segments == old(segments) && costs == old(costs)
      ensures FindEvent(old(events), id).None? ==> r == Err(NotFound) && events == old(events)
      ensures FindEvent(old(events), id).Some? ==>
        var j := IndexOfId(old(events), id).value;
        r == Ok(Patched(old(events)[j], patch)) && events == old(events)[j := Patched(old(events)[j], patch)]
    {
      var j := IndexOfId(events, id);
      if j.None? {
        return Err(NotFound);
      }
      var e := Patched(events[j.value], patch);
      events := events[j.value := e];
      r := Ok(e);
    }

    /** `destroy`: the event goes, and with it (foreign keys with CASCADE)
        the segments from or to it and the costs of the event and of those
        segments. The remaining segments are not recomputed. */
    method Destroy(id: EventId) returns (r: Result<EventId, ApiError>)
      requires Valid()
      modifies this
      ensures Valid()
      ensures trip == old(trip)
      ensures FindEvent(old(events), id).None? ==>
        r == Err(NotFound) && events == old(events) && segments == old(segments) && costs == old(costs)
      ensures FindEvent(old(events), id).Some? ==>
        var j := IndexOfId(old(events), id).value;
        r == Ok(id) &&
        events == old(events)[..j] + old(events)[j + 1..] &&
        segments == WithoutEvent(old(segments), id) &&
        costs == CostsWithoutEvent(old(costs), id, TouchingIds(old(segments), id))
    {
      var j := IndexOfId(events, id);
      if j.None? {
        return Err(NotFound);
      }
      RemoveKeepsKeys(events, j.value, nextEventId);
      var gone := TouchingIds(segments, id);
      CostsWithoutEventUnique(costs, id, gone);
      costs := CostsWithoutEvent(costs, id, gone);
      WithoutEventUnique(segments, id, nextSegmentId);
      segments := WithoutEvent(segments, id);
      events := events[..j.value] + events[j.value + 1..];
      r := Ok(id);
    }

    /** Renumbers the listed events by their position in `ranked`, one
        row at a time, as the loops of `_recalculate_global_order` and
        `_check_and_rebalance_day` save them. */
    method Renumber(ranked: seq<Event>, how: Renumbering)
      requires Valid() && UniqueIds(ranked)
      modifies this
      ensures Valid()
      ensures events == WithRanks(old(events), ranked, how)
      ensures trip == old(trip) && segments == old(segments) && costs == old(costs)
      ensures nextEventId == old(nextEventId) && nextSegmentId == old(nextSegmentId) && nextCostId == old(nextCostId)
    {
      var start := events;
      assert WithRanks(start, ranked[..0], how) == start;
      for idx := 0 to |ranked|
        invariant events == WithRanks(start, ranked[..idx], how)
        invariant SameIds(events, start)
        invariant trip == old(trip) && segments == old(segments) && costs == old(costs)
        invariant nextEventId == old(nextEventId) && nextSegmentId == old(nextSegmentId) && nextCostId == old(nextCostId)
      {
        WithRanksStep(start, ranked, idx, how);
        IndexOfIdSameIds(events, start, ranked[idx].id);
        var j := IndexOfId(events, ranked[idx].id);
        if j.Some? {
          events := events[j.value := Renumbered(start[j.value], idx, how)];
        }
      }
      assert ranked[..|ranked|] == ranked;
      SameIdsKeyed(events, start, nextEventId);
    }

    /** `_recalculate_global_order`: every event's global_order becomes its
        1-based rank in the (day, day_order) order. */
    method RecalculateGlobalOrder()
      requires Valid()
      modifies this
      ensures Valid()
      ensures events == WithRanks(old(events), SortByKey(old(events)), GlobalRank)
      ensures trip == old(trip) && segments == old(segments) && costs == old(costs)
      ensures nextEventId == old(nextEventId) && nextSegmentId == old(nextSegmentId) && nextCostId == old(nextCostId)
    {
      SortByKeyUnique(events);
      Renumber(SortByKey(events), GlobalRank);
    }

    /** `_check_and_rebalance_day(trip, d)`. */
    method CheckAndRebalanceDay(d: Option<int>)
      requires Valid()
      modifies this
      ensures Valid()
      ensures events == RebalanceDay(old(events), d)
      ensures trip == old(trip) && segments == old(segments) && costs == old(costs)
      ensures nextEventId == old(nextEventId) && nextSegmentId == old(nextSegmentId) && nextCostId == old(nextCostId)
    {
      var dayEvents := SortByKey(OfDay(events, d));
      var needsRebalance := NeedsRebalance(dayEvents);
      if needsRebalance {
        OfDayUnique(events, d);
        SortByKeyUnique(OfDay(events, d));
        Renumber(dayEvents, DayRank);
      }
    }

    /** `reorder`: inside one atomic block, every item's order is written to
        its event (an id outside the trip rolls all of it back and answers
        404), the global rank is recomputed and day 1 (the only affected day,
        since items carry no day) is rebalanced when there are items; after
        the commit the segments are reconciled, and a failure there is a 500
        that leaves the new order in place. */
    method Reorder(items: seq<ReorderItem>, provider: Provider) returns (r: Result<seq<Segment>, ApiError>)
      requires Valid()
      modifies this
      ensures Valid()
      ensures AllKnown(old(events), items) <==> ApplyReorder(old(events), items).Some?
      ensures ApplyReorder(old(events), items).None? ==>
        r == Err(NotFound) && events == old(events) && trip == old(trip) &&
        segments == old(segments) && costs == old(costs)
      ensures ApplyReorder(old(events), items).Some? ==>
        events == ReorderedTable(old(events), items) &&
        Reconciled(old(trip), old(segments), old(costs), events, provider, old(nextSegmentId), trip, segments, costs) &&
        (r.Err? <==> RequiredPairs(SortByKey(events)).Err?) &&
        (r.Err? ==> r.error == ServerError) &&
        (r.Ok? ==> r.value == segments)
    {
      var snapshot := events;
      ReorderClosedForm(snapshot, items);
      var applied := ApplyOrders(items);
      if !applied {
        events := snapshot;
        return Err(NotFound);
      }
      RecalculateGlobalOrder();
      if |items| > 0 {
        CheckAndRebalanceDay(Some(1));
      }
      var pairs := Reconcile(provider, old(trip), old(segments), old(costs), old(nextSegmentId));
      if pairs.Err? {
        return Err(ServerError);
      }
      r := Ok(pairs.value);
    }

    /** The loop of the atomic block: each item's order written to its
        event, stopping at the first id outside the trip. */
    method ApplyOrders(items: seq<ReorderItem>) returns (ok: bool)
      requires Valid()
      modifies this
      ensures Valid()
      ensures ok <==> ApplyReorder(old(events), items).Some?
      ensures ok ==> events == ApplyReorder(old(events), items).value
      ensures trip == old(trip) && segments == old(segments) && costs == old(costs)
      ensures nextEventId == old(nextEventId) && nextSegmentId == old(nextSegmentId) && nextCostId == old(nextCostId)
    {
      ghost var start := events;
      for i := 0 to |items|
        invariant ApplyReorder(start, items[..i]) == Some(events)
        invariant SameIds(events, start)
        invariant trip == old(trip) && segments == old(segments) && costs == old(costs)
        invariant nextEventId == old(nextEventId) && nextSegmentId == old(nextSegmentId) && nextCostId == old(nextCostId)
      {
        assert items[..i + 1][..i] == items[..i];
        var j := IndexOfId(events, items[i].id);
        if j.None? {
          assert ApplyReorder(start, items[..i + 1]).None?;
          ReorderFailsOnward(start, items, i + 1);
          SameIdsKeyed(events, start, nextEventId);
          return false;
        }
        events := events[j.value := SetOrder(events[j.value], items[i].order)];
      }
      assert items[..|items|] == items;
      SameIdsKeyed(events, start, nextEventId);
      ok := true;
    }

    /** `update_route` (UpdateRouteTables) with the results stored. */
    method UpdateRoute(id: EventId, travelMode: Option<string>, departure: Option<string>,
                       cost: Option<real>, currency: Option<string>)
      returns (r: Result<Segment, ApiError>)
      requires Valid()
      modifies this
      ensures Valid()
      ensures events == old(events) && trip == old(trip)
      ensures RouteUpdated(old(events), old(segments), old(costs), old(nextSegmentId), old(nextCostId),
                           id, travelMode, departure, cost, currency, r, segments, costs)
    {
      var segs1, costs1;
      r, segs1, costs1 := UpdateRouteTables(events, segments, costs, nextSegmentId, nextCostId,
                                            id, travelMode, departure, cost, currency);
      segments, costs := segs1, costs1;
      nextSegmentId, nextCostId := nextSegmentId + 1, nextCostId + 1;
    }
  }

  /** The table `reorder` commits when every item names an event: the items
      applied, the global rank recomputed, and day 1 rebalanced when there
      were items. */
  function ReorderedTable(events: seq<Event>, items: seq<ReorderItem>): seq<Event>
    requires ApplyReorder(events, items).Some?
  {
    var applied := ApplyReorder(events, items).value;
    var ranked := WithRanks(applied, SortByKey(applied), GlobalRank);
    if |items| > 0 then RebalanceDay(ranked, Some(1)) else ranked
  }

  /** A segment from or to the event (its foreign keys cascade). */
  predicate Touches(s: Segment, id: EventId) {
    s.from == Some(id) || s.to == id
  }

  function TouchingIds(segs: seq<Segment>, id: EventId): (r: set<SegmentId>)
    ensures forall i :: i in r <==> exists s :: s in segs && Touches(s, id) && s.id == i
  {
    set s | s in segs && Touches(s, id) :: s.id
  }

  /** The segments left once an event is deleted. */
  function WithoutEvent(segs: seq<Segment>, id: EventId): (r: seq<Segment>)
    ensures forall s :: s in r <==> s in segs && !Touches(s, id)
  {
    FilterSegments(segs, (s: Segment) => !Touches(s, id))
  }

  lemma WithoutEventUnique(segs: seq<Segment>, id: EventId, n: SegmentId)
    requires UniquePairs(segs) && UniqueSegmentIds(segs) && IdsBelow(segs, n)
    ensures UniquePairs(WithoutEvent(segs, id)) && UniqueSegmentIds(WithoutEvent(segs, id))
    ensures IdsBelow(WithoutEvent(segs, id), n)
  {
    FilterSegmentsUnique(segs, (s: Segment) => !Touches(s, id));
    var r := WithoutEvent(segs, id);
    forall i | 0 <= i < |r|
      ensures r[i].id < n
    {
      assert r[i] in r;
      var j :| 0 <= j < |segs| && segs[j] == r[i];
    }
  }

  /** The costs left once an event and the segments `gone` are deleted. */
  function CostsWithoutEvent(costs: seq<Cost>, id: EventId, gone: set<SegmentId>): (r: seq<Cost>)
    ensures forall c :: c in r <==>
      c in costs && c.eventId != Some(id) && !(c.segmentId.Some? && c.segmentId.value in gone)
  {
    FilterCosts(costs, (c: Cost) => c.eventId != Some(id) && !(c.segmentId.Some? && c.segmentId.value in gone))
  }

  lemma CostsWithoutEventUnique(costs: seq<Cost>, id: EventId, gone: set<SegmentId>)
    requires OneCostPerSegment(costs)
    ensures OneCostPerSegment(CostsWithoutEvent(costs, id, gone))
  {
    FilterCostsUnique(costs, (c: Cost) => c.eventId != Some(id) && !(c.segmentId.Some? && c.segmentId.value in gone));
  }

  lemma WithoutSegmentCostsUnique(costs: seq<Cost>, ids: set<SegmentId>)
    requires OneCostPerSegment(costs)
    ensures OneCostPerSegment(WithoutSegmentCosts(costs, ids))
  {
    FilterCostsUnique(costs, (c: Cost) => !(c.segmentId.Some? && c.segmentId.value in ids));
  }

  lemma KeepNeededUnique(segs: seq<Segment>, needed: set<Pair>)
    requires UniquePairs(segs) && UniqueSegmentIds(segs)
    ensures UniquePairs(KeepNeeded(segs, needed)) && UniqueSegmentIds(KeepNeeded(segs, needed))
  {
    FilterSegmentsUnique(segs, (s: Segment) => SegPair(s) in needed);
  }

  lemma DeleteDropsCosts(costs: seq<Cost>, sid: SegmentId)
    requires OneCostPerSegment(costs)
    ensures OneCostPerSegment(FilterCosts(costs, (c: Cost) => c.segmentId != Some(sid)))
  {
    FilterCostsUnique(costs, (c: Cost) => c.segmentId != Some(sid));
  }

  /** Deleting one event keeps the ids unique, positive and below the
      counter. */
  lemma RemoveKeepsKeys(events: seq<Event>, j: nat, next: EventId)
    requires WellKeyed(events) && j < |events|
    requires forall e :: e in events ==> e.id < next
    ensures WellKeyed(events[..j] + events[j + 1..])
    ensures forall e :: e in events[..j] + events[j + 1..] ==> e in events
  {
    var r := events[..j] + events[j + 1..];
    forall a, b | 0 <= a < b < |r|
      ensures r[a].id != r[b].id
    {
      var a' := if a < j then a else a + 1;
      var b' := if b < j then b else b + 1;
      assert r[a] == events[a'] && r[b] == events[b'];
    }
    forall e | e in r
      ensures e in events
    {
      var k :| 0 <= k < |r| && r[k] == e;
      assert r[k] == events[if k < j then k else k + 1];
    }
  }

  /** A new row with the counter's id keeps the ids unique and positive. */
  lemma AppendKeepsKeys(events: seq<Event>, e: Event, next: EventId)
    requires WellKeyed(events) && next >= 1 && forall x :: x in events ==> x.id < next
    requires e.id == next
    ensures WellKeyed(events + [e]) && forall x :: x in events + [e] ==> x.id < next + 1
  {
    forall i | 0 <= i < |events|
      ensures events[i].id != e.id
    {
      assert events[i] in events;
    }
  }

  /** A table with the same ids at every position keeps the key invariant. */
  lemma SameIdsKeyed(a: seq<Event>, b: seq<Event>, next: EventId)
    requires SameIds(a, b) && WellKeyed(b) && forall e :: e in b ==> e.id < next
    ensures WellKeyed(a) && forall e :: e in a ==> e.id < next
  {
    forall e | e in a
      ensures 0 < e.id < next
    {
      var k :| 0 <= k < |a| && a[k] == e;
      assert b[k] in b;
    }
  }

  /** Every pair still to create passes the guards up to the provider
      call, and names a from-event whenever it has a from id. */
  lemma NeededLegsKnown(t: Trip, events: seq<Event>, all: seq<Event>, needed: set<Pair>)
    requires WellKeyed(events) && all == SortByKey(events)
    requires RequiredPairs(all).Ok? && needed == PairSet(RequiredPairs(all).value)
    ensures forall p :: p in needed ==> LegEnds(t, all, p).Some? && (p.from.Some? ==> LegFrom(all, p).Some?)
  {
    SortByKeyUnique(events);
    forall p | p in needed
      ensures LegEnds(t, all, p).Some? && (p.from.Some? ==> LegFrom(all, p).Some?)
    {
      RequiredLegHasEnds(t, all, p);
    }
  }

  /** The tables a reconciliation leaves: the kept rows followed by the
      created ones, and the costs of the deleted rows gone. */
  lemma ReconcileDone(t0: Trip, segs0: seq<Segment>, costs0: seq<Cost>, events: seq<Event>, all: seq<Event>,
                      needed: set<Pair>, provider: Provider, firstId: SegmentId, created: seq<Segment>)
    requires all == SortByKey(events) && RequiredPairs(all).Ok? && needed == PairSet(RequiredPairs(all).value)
    requires forall k :: 0 <= k < |created| ==> created[k].id == firstId + k
    requires forall k :: 0 <= k < |created| ==>
      SegPair(created[k]) in ToCreate(StoredPairs(segs0), needed) &&
      LegSegment(t0, all, SegPair(created[k]), provider, created[k].id) == Some(created[k])
    requires StoredPairs(created) == Succeeded(t0, all, ToCreate(StoredPairs(segs0), needed), provider)
    ensures Reconciled(t0, segs0, costs0, events, provider, firstId,
                       WithRouteSummary(t0, KeepNeeded(segs0, needed) + created), KeepNeeded(segs0, needed) + created,
                       WithoutSegmentCosts(costs0, DeletedIds(segs0, needed)))
  {
    var existing := StoredPairs(segs0);
    var kept := KeepNeeded(segs0, needed);
    var segs1 := kept + created;
    assert segs1[..|kept|] == kept;
    forall k | |kept| <= k < |segs1|
      ensures segs1[k] == created[k - |kept|]
    {
    }
    StoredPairsAppend(kept, created);
    assert StoredPairs(kept) == existing - ToDelete(existing, needed);
  }

  lemma StoredPairsAppend(a: seq<Segment>, b: seq<Segment>)
    ensures StoredPairs(a + b) == StoredPairs(a) + StoredPairs(b)
  {
  }

  /** The tables a reconciliation leaves keep pairs and ids unique, ids
      below the advanced counter, and one cost per segment. */
  lemma ReconcileKeepsTables(segs0: seq<Segment>, costs0: seq<Cost>, needed: set<Pair>, firstId: SegmentId,
                             created: seq<Segment>)
    requires UniquePairs(segs0) && UniqueSegmentIds(segs0) && OneCostPerSegment(costs0)
    requires IdsBelow(segs0, firstId)
    requires UniquePairs(created)
    requires forall k :: 0 <= k < |created| ==> created[k].id == firstId + k
    requires forall k :: 0 <= k < |created| ==> SegPair(created[k]) in ToCreate(StoredPairs(segs0), needed)
    ensures UniquePairs(KeepNeeded(segs0, needed) + created) && UniqueSegmentIds(KeepNeeded(segs0, needed) + created)
    ensures IdsBelow(KeepNeeded(segs0, needed) + created, firstId + |KeepNeeded(segs0, needed) + created|)
    ensures OneCostPerSegment(WithoutSegmentCosts(costs0, DeletedIds(segs0, needed)))
  {
    WithoutSegmentCostsUnique(costs0, DeletedIds(segs0, needed));
    KeepNeededUnique(segs0, needed);
    forall s | s in segs0
      ensures s.id < firstId
    {
      var i :| 0 <= i < |segs0| && segs0[i] == s;
    }
    KeptAndCreated(KeepNeeded(segs0, needed), created, StoredPairs(segs0), needed, firstId);
  }

  /** Every segment id is below `n`. */
  predicate IdsBelow(segs: seq<Segment>, n: SegmentId) {
    forall i :: 0 <= i < |segs| ==> segs[i].id < n
  }

  /** A stored leg prefixes the created legs: both tables unique, ids below
      the counter. */
  lemma KeptAndCreated(kept: seq<Segment>, created: seq<Segment>, existing: set<Pair>, needed: set<Pair>, firstId: SegmentId)
    requires UniquePairs(kept) && UniqueSegmentIds(kept) && UniquePairs(created)
    requires forall s :: s in kept ==> SegPair(s) in existing && SegPair(s) in needed && s.id < firstId
    requires forall k :: 0 <= k < |created| ==> created[k].id == firstId + k
    requires forall k :: 0 <= k < |created| ==> SegPair(created[k]) in ToCreate(existing, needed)
    ensures UniquePairs(kept + created) && UniqueSegmentIds(kept + created)
    ensures IdsBelow(kept + created, firstId + |created|)
  {
    var r := kept + created;
    forall i, j | 0 <= i < j < |r|
      ensures SegPair(r[i]) != SegPair(r[j]) && r[i].id != r[j].id
    {
      if i < |kept| && j >= |kept| {
        assert r[i] == kept[i] && kept[i] in kept;
        assert r[j] == created[j - |kept|];
      } else if i >= |kept| {
        assert r[i] == created[i - |kept|] && r[j] == created[j - |kept|];
      }
    }
    forall i | 0 <= i < |r|
      ensures r[i].id < firstId + |created|
    {
      if i < |kept| {
        assert r[i] == kept[i] && kept[i] in kept;
      }
    }
  }

  /** Editing a stored segment keeps its pair and id, so the table stays
      unique. */
  lemma UniqueAfterEdit(segs: seq<Segment>, k: nat, s: Segment)
    requires UniquePairs(segs) && UniqueSegmentIds(segs) && k < |segs|
    requires SegPair(s) == SegPair(segs[k]) && s.id == segs[k].id
    ensures UniquePairs(segs[k := s]) && UniqueSegmentIds(segs[k := s])
    ensures forall x :: x in segs[k := s] ==> x in segs || x == s
  {
    forall x | x in segs[k := s]
      ensures x in segs || x == s
    {
      var i :| 0 <= i < |segs[k := s]| && segs[k := s][i] == x;
      if i != k {
        assert segs[i] == x;
      }
    }
  }

  /** A segment for a new pair with a fresh id keeps the table unique. */
  lemma UniqueAfterAppend(segs: seq<Segment>, s: Segment, next: SegmentId)
    requires UniquePairs(segs) && UniqueSegmentIds(segs)
    requires IdsBelow(segs, next) && forall x :: x in segs ==> SegPair(x) != SegPair(s)
    requires s.id == next
    ensures UniquePairs(segs + [s]) && UniqueSegmentIds(segs + [s]) && IdsBelow(segs + [s], next + 1)
  {
    var r := segs + [s];
    forall i | 0 <= i < |segs|
      ensures SegPair(r[i]) != SegPair(s) && r[i].id != s.id
    {
      assert segs[i] in segs;
    }
  }

  /** Once an item names no event, every longer run of items fails too. */
  lemma {:induction false} ReorderFailsOnward(events: seq<Event>, items: seq<ReorderItem>, n: nat)
    requires n <= |items| && ApplyReorder(events, items[..n]).None?
    ensures ApplyReorder(events, items).None?
    decreases |items|
  {
    if n < |items| {
      var init := items[..|items| - 1];
      assert init[..n] == items[..n];
      ReorderFailsOnward(events, init, n);
    } else {
      assert items[..n] == items;
    }
  }
}
