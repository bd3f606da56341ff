/** The rules of the itinerary engine (backend/apps/events/views.py) stated on
    values: the keys a new event gets, the per-leg creation step of segment
    reconciliation, the 1..n global rank, the per-day rebalance, reorder
    application, partial update, and the next-leg rules of `update_route`.
    The TripStore class in module Itinerary is proved against these. */
module ItineraryRules {
  import opened Common
  import opened EventModel
  import opened RouteRows
  import opened TripModels
  import opened SegmentPairs

  // ---------------------------------------------------------------------
  // create: day, day_order, global_order

  /** The validated create payload; absent text fields are already '' and an
      absent number is None, as `data.get(key, default)` reads them. */
  datatype EventInput = EventInput(
    placeId: string,
    placeName: string,
    lat: Option<real>,
    lng: Option<real>,
    address: string,
    activityType: string,
    customTitle: string,
    day: Option<int>,
    startTime: string,
    durationMin: Option<int>,
    memo: string)

  /** `data.get('day') or trip.total_days or 1`: a missing or zero day falls
      back to the trip length, and a zero trip length to day 1. */
  function TargetDay(requested: Option<int>, totalDays: int): (d: int)
    ensures d != 0
    ensures requested.Some? && requested.value != 0 ==> d == requested.value
    ensures (requested.None? || requested.value == 0) && totalDays != 0 ==> d == totalDays
    ensures (requested.None? || requested.value == 0) && totalDays == 0 ==> d == 1
  {
    if requested.Some? && requested.value != 0 then requested.value
    else if totalDays != 0 then totalDays
    else 1
  }

  /** The greatest day_order among the events of day `d`, if there is one. */
  function MaxDayOrder(s: seq<Event>, d: Option<int>): (r: Option<int>)
    ensures r.None? <==> forall e :: e in s ==> e.day != d
    ensures r.Some? ==> exists e :: e in s && e.day == d && e.dayOrder == r.value
    ensures r.Some? ==> forall e :: e in s && e.day == d ==> e.dayOrder <= r.value
    decreases |s|
  {
    if s == [] then None
    else
      var x := s[|s| - 1];
      assert s == s[..|s| - 1] + [x];
      var m := MaxDayOrder(s[..|s| - 1], d);
      if x.day != d then m
      else if m.Some? && m.value >= x.dayOrder then m
      else Some(x.dayOrder)
  }

  /** The greatest global_order in the trip, if it has events. */
  function MaxGlobalOrder(s: seq<Event>): (r: Option<int>)
    ensures r.None? <==> s == []
    ensures r.Some? ==> exists e :: e in s && e.globalOrder == r.value
    ensures r.Some? ==> forall e :: e in s ==> e.globalOrder <= r.value
    decreases |s|
  {
    if s == [] then None
    else
      var x := s[|s| - 1];
      assert s == s[..|s| - 1] + [x];
      var m := MaxGlobalOrder(s[..|s| - 1]);
      if m.Some? && m.value >= x.globalOrder then m else Some(x.globalOrder)
  }

  /** A new event's day_order: one step (10.0) above the last event of its
      day, or one step when the day is empty. */
  function CreatedDayOrder(s: seq<Event>, d: int): (k: int)
    ensures forall e :: e in s && e.day == Some(d) ==> e.dayOrder + DAY_ORDER_STEP <= k
    ensures (forall e :: e in s ==> e.day != Some(d)) ==> k == DAY_ORDER_STEP
    ensures (exists e :: e in s && e.day == Some(d)) ==>
      exists e :: e in s && e.day == Some(d) && k == e.dayOrder + DAY_ORDER_STEP
  {
    match MaxDayOrder(s, Some(d))
    case None => DAY_ORDER_STEP
    case Some(m) => m + DAY_ORDER_STEP
  }

  /** A new event's global_order: one more than the greatest in the trip,
      or 1 for the first event. This is not the count of events plus one. */
  function CreatedGlobalOrder(s: seq<Event>): (g: int)
    ensures forall e :: e in s ==> e.globalOrder < g
    ensures s == [] ==> g == 1
    ensures s != [] ==> exists e :: e in s && g == e.globalOrder + 1
  {
    match MaxGlobalOrder(s)
    case None => 1
    case Some(m) => m + 1
  }

  /** The row `create` inserts: `order` mirrors global_order. */
  function CreatedEvent(id: EventId, input: EventInput, t: Trip, s: seq<Event>): (e: Event)
    ensures e.id == id && e.day == Some(TargetDay(input.day, t.totalDays))
    ensures e.order == e.globalOrder == CreatedGlobalOrder(s)
    ensures e.dayOrder == CreatedDayOrder(s, TargetDay(input.day, t.totalDays))
    ensures e.placeId == input.placeId && e.placeName == input.placeName
    ensures e.lat == input.lat && e.lng == input.lng && e.address == input.address
    ensures e.activityType == input.activityType && e.customTitle == input.customTitle
    ensures e.startTime == input.startTime && e.durationMin == input.durationMin && e.memo == input.memo
  {
    var day := TargetDay(input.day, t.totalDays);
    var g := CreatedGlobalOrder(s);
    Event(id, g, g, CreatedDayOrder(s, day), input.placeId, input.placeName, input.lat, input.lng,
          input.address, input.activityType, input.customTitle, Some(day), input.startTime,
          input.durationMin, input.memo)
  }

  /** The new event sorts after every other event of its day. */
  lemma CreatedEventIsLastOfDay(id: EventId, input: EventInput, t: Trip, s: seq<Event>, x: Event)
    requires x in s && x.day == CreatedEvent(id, input, t, s).day
    ensures KeyLe(x, CreatedEvent(id, input, t, s)) && !KeyLe(CreatedEvent(id, input, t, s), x)
  {
  }

  // ---------------------------------------------------------------------
  // Segment reconciliation, one leg at a time

  function SegPair(s: Segment): Pair {
    Pair(s.from, s.to)
  }

  /** The keys of `existing_segments_map`. */
  function StoredPairs(segs: seq<Segment>): (r: set<Pair>)
    ensures forall p :: p in r <==> exists s :: s in segs && SegPair(s) == p
  {
    set s | s in segs :: SegPair(s)
  }

  predicate UniquePairs(segs: seq<Segment>) {
    forall i, j :: 0 <= i < j < |segs| ==> SegPair(segs[i]) != SegPair(segs[j])
  }

  predicate UniqueSegmentIds(segs: seq<Segment>) {
    forall i, j :: 0 <= i < j < |segs| ==> segs[i].id != segs[j].id
  }

  /** The segment rows a bulk `delete()` leaves: those `keep` accepts, in
      table order. */
  function FilterSegments(segs: seq<Segment>, keep: Segment -> bool): (r: seq<Segment>)
    ensures forall s :: s in r <==> s in segs && keep(s)
    ensures |r| <= |segs|
    decreases |segs|
  {
    if segs == [] then []
    else
      var x := segs[|segs| - 1];
      assert segs == segs[..|segs| - 1] + [x];
      var k := FilterSegments(segs[..|segs| - 1], keep);
      if keep(x) then k + [x] else k
  }

  /** Deleting rows keeps pairs and ids unique. */
  lemma {:induction false} FilterSegmentsUnique(segs: seq<Segment>, keep: Segment -> bool)
    requires UniquePairs(segs) && UniqueSegmentIds(segs)
    ensures UniquePairs(FilterSegments(segs, keep)) && UniqueSegmentIds(FilterSegments(segs, keep))
    decreases |segs|
  {
    if segs != [] {
      var init := segs[..|segs| - 1];
      var x := segs[|segs| - 1];
      FilterSegmentsUnique(init, keep);
      var k := FilterSegments(init, keep);
      if keep(x) {
        forall i | 0 <= i < |k|
          ensures SegPair(k[i]) != SegPair(x) && k[i].id != x.id
        {
          assert k[i] in k;
          var a :| 0 <= a < |init| && init[a] == k[i];
        }
      }
    }
  }

  /** Keeping every row changes nothing. */
  lemma {:induction false} FilterSegmentsAll(segs: seq<Segment>, keep: Segment -> bool)
    requires forall s :: s in segs ==> keep(s)
    ensures FilterSegments(segs, keep) == segs
    decreases |segs|
  {
    if segs != [] {
      assert segs == segs[..|segs| - 1] + [segs[|segs| - 1]];
      FilterSegmentsAll(segs[..|segs| - 1], keep);
    }
  }

  /** The cost rows a bulk `delete()` or a cascade leaves. */
  function FilterCosts(costs: seq<Cost>, keep: Cost -> bool): (r: seq<Cost>)
    ensures forall c :: c in r <==> c in costs && keep(c)
    ensures |r| <= |costs|
    decreases |costs|
  {
    if costs == [] then []
    else
      var x := costs[|costs| - 1];
      assert costs == costs[..|costs| - 1] + [x];
      var k := FilterCosts(costs[..|costs| - 1], keep);
      if keep(x) then k + [x] else k
  }

  lemma {:induction false} FilterCostsUnique(costs: seq<Cost>, keep: Cost -> bool)
    requires OneCostPerSegment(costs)
    ensures OneCostPerSegment(FilterCosts(costs, keep))
    decreases |costs|
  {
    if costs != [] {
      var init := costs[..|costs| - 1];
      var x := costs[|costs| - 1];
      FilterCostsUnique(init, keep);
      var k := FilterCosts(init, keep);
      if keep(x) {
        forall i | 0 <= i < |k| && k[i].segmentId.Some?
          ensures k[i].segmentId != x.segmentId
        {
          assert k[i] in k;
          var a :| 0 <= a < |init| && init[a] == k[i];
        }
      }
    }
  }

  lemma {:induction false} FilterCostsAll(costs: seq<Cost>, keep: Cost -> bool)
    requires forall c :: c in costs ==> keep(c)
    ensures FilterCosts(costs, keep) == costs
    decreases |costs|
  {
    if costs != [] {
      assert costs == costs[..|costs| - 1] + [costs[|costs| - 1]];
      FilterCostsAll(costs[..|costs| - 1], keep);
    }
  }

  /** The stored segments that survive the delete step, in table order. */
  function KeepNeeded(segs: seq<Segment>, needed: set<Pair>): (r: seq<Segment>)
    ensures forall s :: s in r <==> s in segs && SegPair(s) in needed
  {
    FilterSegments(segs, (s: Segment) => SegPair(s) in needed)
  }

  /** The ids of the deleted segments (`delete_ids`). */
  function DeletedIds(segs: seq<Segment>, needed: set<Pair>): (r: set<SegmentId>)
    ensures forall i :: i in r <==> exists s :: s in segs && SegPair(s) !in needed && s.id == i
  {
    set s | s in segs && SegPair(s) !in needed :: s.id
  }

  /** The costs that survive deleting the given segments: a segment's costs
      go with it (foreign key with CASCADE). */
  function WithoutSegmentCosts(costs: seq<Cost>, ids: set<SegmentId>): (r: seq<Cost>)
    ensures forall c :: c in r <==> c in costs && !(c.segmentId.Some? && c.segmentId.value in ids)
  {
    FilterCosts(costs, (c: Cost) => !(c.segmentId.Some? && c.segmentId.value in ids))
  }

  /** `events_map.get(from_id) if from_id else None`: a zero or absent id and
      an id not in the map all give no from-event. */
  function LegFrom(events: seq<Event>, p: Pair): (r: Option<Event>)
    ensures r.Some? ==> p.from.Some? && p.from.value != 0 && r.value in events && r.value.id == p.from.value
    ensures p.from.Some? && p.from.value != 0 && (exists e :: e in events && e.id == p.from.value) ==> r.Some?
  {
    if p.from.Some? && p.from.value != 0 then FindEvent(events, p.from.value) else None
  }

  /** The locations the provider is asked about for one leg, or None when the
      step skips the leg: the to-event is missing or unlocated, or the
      from-event is unlocated. A missing from-event means the trip start. */
  function LegEnds(t: Trip, events: seq<Event>, p: Pair): (r: Option<(Location, Location)>)
    ensures r.Some? <==>
      FindEvent(events, p.to).Some? && Located(FindEvent(events, p.to).value) &&
      (LegFrom(events, p).None? || Located(LegFrom(events, p).value))
    ensures r.Some? ==> r.value.1 == LocationOf(FindEvent(events, p.to).value).value
    ensures r.Some? && LegFrom(events, p).None? ==> r.value.0 == StartLocation(t)
    ensures r.Some? && LegFrom(events, p).Some? ==> r.value.0 == LocationOf(LegFrom(events, p).value).value
  {
    match FindEvent(events, p.to)
    case None => None
    case Some(to) =>
      if !Located(to) then None
      else
        var from := LegFrom(events, p);
        var fromLoc := if from.None? then Some(StartLocation(t)) else LocationOf(from.value);
        if fromLoc.None? then None else Some((fromLoc.value, LocationOf(to).value))
  }

  /** The segment one to-create pair yields: nothing when the leg is skipped
      or the provider gives no route, otherwise a DRIVING segment carrying the
      provider's duration, distance and polyline ('' when absent). */
  function LegSegment(t: Trip, events: seq<Event>, p: Pair, provider: Provider, id: SegmentId): (r: Option<Segment>)
    ensures r.Some? <==> LegEnds(t, events, p).Some? && provider(LegEnds(t, events, p).value.0, LegEnds(t, events, p).value.1).Some?
    ensures r.Some? ==>
      var route := provider(LegEnds(t, events, p).value.0, LegEnds(t, events, p).value.1).value;
      r.value.id == id && r.value.to == p.to &&
      r.value.from == (if LegFrom(events, p).Some? then p.from else None) &&
      r.value.durationMin == route.durationMin && r.value.distanceKm == route.distanceKm &&
      r.value.polyline == route.polyline.GetOr("") &&
      r.value.travelMode == "DRIVING" && r.value.departureTime == ""
  {
    match LegEnds(t, events, p)
    case None => None
    case Some(ends) =>
      match provider(ends.0, ends.1)
      case None => None
      case Some(route) =>
        var from := LegFrom(events, p);
        Some(Segment(id, if from.Some? then Some(from.value.id) else None, p.to,
                     route.durationMin, route.distanceKm, route.polyline.GetOr(""), "DRIVING", ""))
  }

  /** Event ids are positive (auto-increment keys) and unique. */
  predicate WellKeyed(events: seq<Event>) {
    UniqueIds(events) && forall e :: e in events ==> e.id > 0
  }

  lemma FindUnique(events: seq<Event>, e: Event)
    requires UniqueIds(events) && e in events
    ensures FindEvent(events, e.id) == Some(e)
  {
    var i :| 0 <= i < |events| && events[i] == e;
    UniqueIndex(events, i);
  }

  /** For a needed pair every guard of the creation step passes: only the
      provider can make the pair yield no segment, and the segment it yields
      carries exactly that pair. */
  lemma RequiredLegHasEnds(t: Trip, all: seq<Event>, p: Pair)
    requires WellKeyed(all)
    requires RequiredPairs(all).Ok? && p in RequiredPairs(all).value
    ensures LegEnds(t, all, p).Some?
    ensures p.from.Some? <==> LegFrom(all, p).Some?
    ensures forall provider: Provider, id: SegmentId :: LegSegment(t, all, p, provider, id).Some? ==>
      SegPair(LegSegment(t, all, p, provider, id).value) == p
  {
    RequiredPairsExactly(all, p);
    if IsStartPair(all, p) {
      var d1 := OfDay(all, Some(1));
      assert d1[0] in d1;
      FindUnique(all, d1[0]);
    } else {
      var d, i: nat :| IsLink(all, d, i, p);
      var evs := OfDay(all, d);
      assert evs[i] in evs && evs[i + 1] in evs;
      FindUnique(all, evs[i]);
      FindUnique(all, evs[i + 1]);
    }
  }

  /** The pairs whose creation succeeded, as the stored pairs after the step
      show them. */
  function Succeeded(t: Trip, events: seq<Event>, toCreate: set<Pair>, provider: Provider): (r: set<Pair>)
    ensures r <= toCreate
    ensures forall p :: p in r <==> p in toCreate && LegSegment(t, events, p, provider, 0).Some?
  {
    set p | p in toCreate && LegSegment(t, events, p, provider, 0).Some?
  }

  /** Whether a leg succeeds does not depend on the id it would be given. */
  lemma LegSegmentIdIrrelevant(t: Trip, events: seq<Event>, p: Pair, provider: Provider, id: SegmentId)
    ensures LegSegment(t, events, p, provider, id).Some? == LegSegment(t, events, p, provider, 0).Some?
    ensures LegSegment(t, events, p, provider, id).Some? ==>
      LegSegment(t, events, p, provider, id).value == LegSegment(t, events, p, provider, 0).value.(id := id)
  {
  }

  /** The rows the creation step adds when it visits the to-create pairs in
      the order `order` (the arbitrary iteration order of a Python set): one
      per leg that succeeds, numbered from `firstId` in visiting order. */
  function CreatedRows(t: Trip, events: seq<Event>, order: seq<Pair>, provider: Provider, firstId: SegmentId)
    : (r: seq<Segment>)
    ensures |r| <= |order|
    decreases |order|
  {
    if order == [] then []
    else
      var r0 := CreatedRows(t, events, order[..|order| - 1], provider, firstId);
      match LegSegment(t, events, order[|order| - 1], provider, firstId + |r0|)
      case None => r0
      case Some(s) => r0 + [s]
  }

  /** No pair is visited twice. */
  predicate DistinctPairs(order: seq<Pair>) {
    forall i, j :: 0 <= i < j < |order| ==> order[i] != order[j]
  }

  /** Every visited pair with a from id names a known from-event. */
  predicate FromsKnown(events: seq<Event>, order: seq<Pair>) {
    forall i :: 0 <= i < |order| && order[i].from.Some? ==> LegFrom(events, order[i]).Some?
  }

  /** Rows numbered consecutively from `firstId`. */
  predicate NumberedFrom(r: seq<Segment>, firstId: SegmentId) {
    forall k :: 0 <= k < |r| ==> r[k].id == firstId + k
  }

  /** The created rows are numbered consecutively from `firstId`. */
  lemma {:induction false} CreatedRowsIds(t: Trip, events: seq<Event>, order: seq<Pair>, provider: Provider,
                                          firstId: SegmentId)
    ensures NumberedFrom(CreatedRows(t, events, order, provider, firstId), firstId)
    decreases |order|
  {
    if order != [] {
      var init := order[..|order| - 1];
      CreatedRowsIds(t, events, init, provider, firstId);
      var r0 := CreatedRows(t, events, init, provider, firstId);
      var leg := LegSegment(t, events, order[|order| - 1], provider, firstId + |r0|);
      assert CreatedRows(t, events, order, provider, firstId) == if leg.Some? then r0 + [leg.value] else r0;
      if leg.Some? {
        assert leg.value.id == firstId + |r0|;
        var r := r0 + [leg.value];
        forall k | 0 <= k < |r| ensures r[k].id == firstId + k {
          if k < |r0| {
            assert r[k] == r0[k];
          }
        }
      }
    }
  }

  /** Each row is the segment of the leg of one of `pairs`. */
  ghost predicate LegRows(t: Trip, events: seq<Event>, pairs: set<Pair>, provider: Provider, r: seq<Segment>) {
    forall k :: 0 <= k < |r| ==>
      SegPair(r[k]) in pairs && LegSegment(t, events, SegPair(r[k]), provider, r[k].id) == Some(r[k])
  }

  /** Each created row is the segment of a visited pair's leg. */
  lemma {:induction false} CreatedRowsLegs(t: Trip, events: seq<Event>, order: seq<Pair>, provider: Provider,
                                           firstId: SegmentId)
    requires FromsKnown(events, order)
    ensures LegRows(t, events, PairSet(order), provider, CreatedRows(t, events, order, provider, firstId))
    decreases |order|
  {
    if order != [] {
      var init := order[..|order| - 1];
      var p := order[|order| - 1];
      assert FromsKnown(events, init) by {
        forall i | 0 <= i < |init| ensures init[i] == order[i] { }
      }
      CreatedRowsLegs(t, events, init, provider, firstId);
      var r0 := CreatedRows(t, events, init, provider, firstId);
      var leg := LegSegment(t, events, p, provider, firstId + |r0|);
      assert p in PairSet(order) by {
        assert order[|order| - 1] == p;
      }
      assert PairSet(init) <= PairSet(order) by {
        forall i | 0 <= i < |init| ensures init[i] in order {
          assert init[i] == order[i];
        }
      }
      if leg.Some? {
        assert p.from.Some? ==> LegFrom(events, p).Some?;
        assert SegPair(leg.value) == p;
      }
    }
  }

  /** No two created rows share a pair, and their pairs are exactly the
      visited pairs whose leg succeeds. */
  lemma {:induction false} CreatedRowsPairs(t: Trip, events: seq<Event>, order: seq<Pair>, provider: Provider,
                                            firstId: SegmentId)
    requires DistinctPairs(order) && FromsKnown(events, order)
    ensures StoredPairs(CreatedRows(t, events, order, provider, firstId)) == Succeeded(t, events, PairSet(order), provider)
    ensures UniquePairs(CreatedRows(t, events, order, provider, firstId))
    decreases |order|
  {
    if order != [] {
      var init := order[..|order| - 1];
      var p := order[|order| - 1];
      VisitedPrefix(events, order);
      CreatedRowsPairs(t, events, init, provider, firstId);
      var r0 := CreatedRows(t, events, init, provider, firstId);
      LegSegmentIdIrrelevant(t, events, p, provider, firstId + |r0|);
      SucceededStep(t, events, PairSet(init), p, provider);
      var leg := LegSegment(t, events, p, provider, firstId + |r0|);
      if leg.Some? {
        assert CreatedRows(t, events, order, provider, firstId) == r0 + [leg.value];
        assert SegPair(leg.value) == p;
        StoredPairsSnoc(r0, leg.value);
        UniquePairsSnoc(r0, leg.value);
      } else {
        assert CreatedRows(t, events, order, provider, firstId) == r0;
      }
    }
  }

  /** Dropping the last visited pair keeps the order distinct and the froms
      known, and the dropped pair is not among the rest. */
  lemma VisitedPrefix(events: seq<Event>, order: seq<Pair>)
    requires order != [] && DistinctPairs(order) && FromsKnown(events, order)
    ensures DistinctPairs(order[..|order| - 1]) && FromsKnown(events, order[..|order| - 1])
    ensures order[|order| - 1] !in PairSet(order[..|order| - 1])
    ensures PairSet(order) == PairSet(order[..|order| - 1]) + {order[|order| - 1]}
    ensures order[|order| - 1].from.Some? ==> LegFrom(events, order[|order| - 1]).Some?
  {
    var init := order[..|order| - 1];
    forall i | 0 <= i < |init| ensures init[i] == order[i] { }
    assert order == init + [order[|order| - 1]];
  }

  lemma SucceededStep(t: Trip, events: seq<Event>, pairs: set<Pair>, p: Pair, provider: Provider)
    ensures Succeeded(t, events, pairs + {p}, provider) ==
      if LegSegment(t, events, p, provider, 0).Some? then Succeeded(t, events, pairs, provider) + {p}
      else Succeeded(t, events, pairs, provider)
  {
  }

  lemma StoredPairsSnoc(r: seq<Segment>, s: Segment)
    ensures StoredPairs(r + [s]) == StoredPairs(r) + {SegPair(s)}
  {
    assert forall x :: x in r + [s] <==> x in r || x == s;
  }

  lemma UniquePairsSnoc(r: seq<Segment>, s: Segment)
    requires UniquePairs(r) && SegPair(s) !in StoredPairs(r)
    ensures UniquePairs(r + [s])
  {
    var r1 := r + [s];
    forall i, j | 0 <= i < j < |r1|
      ensures SegPair(r1[i]) != SegPair(r1[j])
    {
      assert r1[i] == r[i] && r[i] in r;
    }
  }

  /** What one reconciliation makes of the segment and cost tables and the
      trip, given the events: nothing when the pairs cannot be computed;
      otherwise the stored segments whose pair is still needed, in table
      order, followed by the new segments of the to-create pairs that
      succeeded; the deleted segments' costs gone; and the trip totals
      recomputed over all stored segments. */
  ghost predicate Reconciled(t0: Trip, segs0: seq<Segment>, costs0: seq<Cost>, events: seq<Event>,
                             provider: Provider, firstId: SegmentId,
                             t1: Trip, segs1: seq<Segment>, costs1: seq<Cost>)
  {
    var all := SortByKey(events);
    match RequiredPairs(all)
    case Err(_) => t1 == t0 && segs1 == segs0 && costs1 == costs0
    case Ok(ps) =>
      var needed := PairSet(ps);
      var existing := StoredPairs(segs0);
      var kept := KeepNeeded(segs0, needed);
      |kept| <= |segs1| && segs1[..|kept|] == kept &&
      (forall k :: |kept| <= k < |segs1| ==>
         segs1[k].id == firstId + (k - |kept|) &&
         SegPair(segs1[k]) in ToCreate(existing, needed) &&
         LegSegment(t0, all, SegPair(segs1[k]), provider, segs1[k].id) == Some(segs1[k])) &&
      StoredPairs(segs1) == (existing - ToDelete(existing, needed)) + Succeeded(t0, all, ToCreate(existing, needed), provider) &&
      costs1 == WithoutSegmentCosts(costs0, DeletedIds(segs0, needed)) &&
      t1 == WithRouteSummary(t0, segs1)
  }

  // ---------------------------------------------------------------------
  // Renumbering: the global rank and the per-day rebalance

  /** What a rank renumbers: global_order (`_recalculate_global_order`),
      day_order and order (`_check_and_rebalance_day`), or day_order alone
      (the `init_event_orders` back-fill). */
  datatype Renumbering = GlobalRank | DayRank | DayOrderRank

  /** The event at 0-based rank k. */
  function Renumbered(e: Event, k: nat, how: Renumbering): (r: Event)
    ensures r.id == e.id && r.day == e.day
    ensures how == GlobalRank ==> r == e.(globalOrder := k + 1)
    ensures how == DayRank ==> r == e.(dayOrder := (k + 1) * DAY_ORDER_STEP, order := (k + 1) * 10)
    ensures how == DayOrderRank ==> r == e.(dayOrder := (k + 1) * DAY_ORDER_STEP)
  {
    match how
    case GlobalRank => e.(globalOrder := k + 1)
    case DayRank => e.(dayOrder := (k + 1) * DAY_ORDER_STEP, order := (k + 1) * 10)
    case DayOrderRank => e.(dayOrder := (k + 1) * DAY_ORDER_STEP)
  }

  function RankedEvent(e: Event, ranked: seq<Event>, how: Renumbering): Event {
    match IndexOfId(ranked, e.id)
    case None => e
    case Some(k) => Renumbered(e, k, how)
  }

  /** The table after every event listed in `ranked` is renumbered by its
      position there; unlisted events are unchanged. */
  function WithRanks(events: seq<Event>, ranked: seq<Event>, how: Renumbering): (r: seq<Event>)
    ensures |r| == |events|
    ensures forall j :: 0 <= j < |events| ==> r[j].id == events[j].id && r[j].day == events[j].day
  {
    seq(|events|, j requires 0 <= j < |events| => RankedEvent(events[j], ranked, how))
  }

  lemma {:induction false} IndexOfIdSnoc(s: seq<Event>, e: Event, id: EventId)
    ensures IndexOfId(s + [e], id) ==
      if IndexOfId(s, id).Some? then IndexOfId(s, id) else if e.id == id then Some(|s|) else None
    decreases |s|
  {
    if s != [] {
      assert (s + [e])[1..] == s[1..] + [e];
      IndexOfIdSnoc(s[1..], e, id);
    }
  }

  /** Two tables with the same id at every position. */
  predicate SameIds(a: seq<Event>, b: seq<Event>) {
    |a| == |b| && forall i :: 0 <= i < |a| ==> a[i].id == b[i].id
  }

  /** Lookup by id sees nothing but the ids. */
  lemma {:induction false} IndexOfIdSameIds(a: seq<Event>, b: seq<Event>, id: EventId)
    requires SameIds(a, b)
    ensures IndexOfId(a, id) == IndexOfId(b, id)
    decreases |a|
  {
    if a != [] {
      assert SameIds(a[1..], b[1..]);
      IndexOfIdSameIds(a[1..], b[1..], id);
    }
  }

  /** Assigning global ranks keeps what the query order sees. */
  lemma GlobalRankKeepsKeys(events: seq<Event>, ranked: seq<Event>)
    ensures SameKeys(events, WithRanks(events, ranked, GlobalRank))
  {
    var r := WithRanks(events, ranked, GlobalRank);
    forall j | 0 <= j < |events|
      ensures r[j].dayOrder == events[j].dayOrder
    {
      assert r[j] == RankedEvent(events[j], ranked, GlobalRank);
    }
  }

  /** After `_recalculate_global_order` the global orders, read in query
      order, are exactly 1, 2, ..., n, and the query order is the one the
      ranks were taken from. */
  lemma GlobalOrderIsRank(events: seq<Event>)
    requires UniqueIds(events)
    ensures var after := WithRanks(events, SortByKey(events), GlobalRank);
      |SortByKey(after)| == |events| && |SortByKey(events)| == |events| &&
      forall k :: 0 <= k < |events| ==>
        SortByKey(after)[k].id == SortByKey(events)[k].id && SortByKey(after)[k].globalOrder == k + 1
  {
    var ranked := SortByKey(events);
    var after := WithRanks(events, ranked, GlobalRank);
    GlobalRankKeepsKeys(events, ranked);
    SortByKeySameKeys(events, after);
    SortByKeyProps(events);
    SortByKeyUnique(events);
    assert UniqueIds(after);
    SortByKeyUnique(after);
    forall k | 0 <= k < |events|
      ensures SortByKey(after)[k].globalOrder == k + 1
    {
      var x := SortByKey(after)[k];
      assert x in SortByKey(after);
      var j :| 0 <= j < |after| && after[j] == x;
      assert x.id == ranked[k].id;
      UniqueIndex(ranked, k);
      assert after[j] == RankedEvent(events[j], ranked, GlobalRank);
    }
  }

  /** Recomputing the global order a second time changes nothing. */
  lemma GlobalOrderIdempotent(events: seq<Event>)
    requires UniqueIds(events)
    ensures var after := WithRanks(events, SortByKey(events), GlobalRank);
      WithRanks(after, SortByKey(after), GlobalRank) == after
  {
    var ranked := SortByKey(events);
    var after := WithRanks(events, ranked, GlobalRank);
    GlobalRankKeepsKeys(events, ranked);
    SortByKeySameKeys(events, after);
    var again := WithRanks(after, SortByKey(after), GlobalRank);
    forall j | 0 <= j < |after|
      ensures again[j] == after[j]
    {
      IndexOfIdSameIds(ranked, SortByKey(after), events[j].id);
      assert after[j] == RankedEvent(events[j], ranked, GlobalRank);
      assert again[j] == RankedEvent(after[j], SortByKey(after), GlobalRank);
    }
  }

  /** Some adjacent pair of a day's events, in day_order, is closer than
      the minimum gap 0.0001. */
  predicate HasTightGap(s: seq<Event>) {
    exists i :: 0 <= i < |s| - 1 && s[i + 1].dayOrder - s[i].dayOrder < MIN_GAP
  }

  /** The table with day d renumbered 10, 20, ... in its day order. */
  function RenumberedDay(events: seq<Event>, d: Option<int>): seq<Event> {
    WithRanks(events, SortByKey(OfDay(events, d)), DayRank)
  }

  /** `_check_and_rebalance_day(trip, d)`: the day's events in day_order are
      renumbered 10, 20, ... when the day has two or more events and a gap
      below the minimum; otherwise nothing changes. */
  function RebalanceDay(events: seq<Event>, d: Option<int>): seq<Event> {
    var ranked := SortByKey(OfDay(events, d));
    if |ranked| >= 2 && HasTightGap(ranked) then RenumberedDay(events, d) else events
  }

  predicate OneDay(s: seq<Event>, d: Option<int>) {
    forall e :: e in s ==> e.day == d
  }

  /** In a day sorted by day_order with the 0.0001 unit, a gap below the
      minimum is a tie: the rebalance fires exactly when two events of the
      day share a day_order. */
  lemma TightGapIsTie(s: seq<Event>, d: Option<int>)
    requires SortedByKey(s) && OneDay(s, d)
    ensures HasTightGap(s) <==> exists i, j :: 0 <= i < j < |s| && s[i].dayOrder == s[j].dayOrder
  {
    if HasTightGap(s) {
      var i :| 0 <= i < |s| - 1 && s[i + 1].dayOrder - s[i].dayOrder < MIN_GAP;
      assert s[i] in s && s[i + 1] in s;
      assert KeyLe(s[i], s[i + 1]);
    }
    if exists i, j :: 0 <= i < j < |s| && s[i].dayOrder == s[j].dayOrder {
      var i, j :| 0 <= i < j < |s| && s[i].dayOrder == s[j].dayOrder;
      assert s[i] in s && s[i + 1] in s && s[j] in s;
      assert KeyLe(s[i], s[i + 1]);
      if i + 1 < j {
        assert KeyLe(s[i + 1], s[j]);
      }
      assert s[i + 1].dayOrder - s[i].dayOrder < MIN_GAP;
    }
  }

  /** A rebalance of day d leaves the events of every other day as they
      were. */
  lemma RebalanceOtherDays(events: seq<Event>, d: Option<int>)
    requires UniqueIds(events)
    ensures var after := WithRanks(events, SortByKey(OfDay(events, d)), DayRank);
      forall j :: 0 <= j < |events| && events[j].day != d ==> after[j] == events[j]
  {
    var ranked := SortByKey(OfDay(events, d));
    var after := WithRanks(events, ranked, DayRank);
    OfDayUnique(events, d);
    SortByKeyUnique(OfDay(events, d));
    forall j | 0 <= j < |events| && events[j].day != d
      ensures after[j] == events[j]
    {
      assert after[j] == RankedEvent(events[j], ranked, DayRank);
      forall x | x in ranked
        ensures x.id != events[j].id
      {
        var i :| 0 <= i < |events| && events[i] == x;
        assert events[i].day != events[j].day;
      }
    }
  }

  /** After a rebalance of day d, the event at rank k of the old day order
      has day_order 10·(k+1). */
  lemma RebalanceThisDay(events: seq<Event>, d: Option<int>)
    requires UniqueIds(events)
    ensures var ranked := SortByKey(OfDay(events, d));
      var after := WithRanks(events, ranked, DayRank);
      forall j :: 0 <= j < |events| && events[j].day == d ==>
        IndexOfId(ranked, events[j].id).Some? &&
        after[j].dayOrder == (IndexOfId(ranked, events[j].id).value + 1) * DAY_ORDER_STEP
  {
    var ranked := SortByKey(OfDay(events, d));
    var after := WithRanks(events, ranked, DayRank);
    OfDayUnique(events, d);
    SortByKeyUnique(OfDay(events, d));
    forall j | 0 <= j < |events| && events[j].day == d
      ensures IndexOfId(ranked, events[j].id).Some?
      ensures after[j].dayOrder == (IndexOfId(ranked, events[j].id).value + 1) * DAY_ORDER_STEP
    {
      assert events[j] in events;
      assert events[j] in ranked;
      assert after[j] == RankedEvent(events[j], ranked, DayRank);
    }
  }

  /** After a rebalance no two events of the day share a day_order. */
  lemma RebalanceDistinct(events: seq<Event>, d: Option<int>)
    requires UniqueIds(events)
    ensures forall i, j :: 0 <= i < j < |RenumberedDay(events, d)| && RenumberedDay(events, d)[i].day == d && RenumberedDay(events, d)[j].day == d ==>
        RenumberedDay(events, d)[i].dayOrder != RenumberedDay(events, d)[j].dayOrder
  {
    var ranked := SortByKey(OfDay(events, d));
    var after := WithRanks(events, ranked, DayRank);
    RebalanceThisDay(events, d);
    forall i, j | 0 <= i < j < |after| && after[i].day == d && after[j].day == d
      ensures after[i].dayOrder != after[j].dayOrder
    {
      var ki := IndexOfId(ranked, events[i].id).value;
      var kj := IndexOfId(ranked, events[j].id).value;
      assert ki != kj;
    }
  }

  /** A day whose events all have distinct day_orders has no tight gap. */
  lemma NoTieNoRebalance(events: seq<Event>, d: Option<int>)
    requires UniqueIds(events)
    requires forall i, j :: 0 <= i < j < |events| && events[i].day == d && events[j].day == d ==>
      events[i].dayOrder != events[j].dayOrder
    ensures RebalanceDay(events, d) == events
  {
    var day := OfDay(events, d);
    var s := SortByKey(day);
    SortByKeyProps(day);
    OfDayUnique(events, d);
    SortByKeyUnique(day);
    TightGapIsTie(s, d);
    forall i, j | 0 <= i < j < |s|
      ensures s[i].dayOrder != s[j].dayOrder
    {
      assert s[i] in s && s[j] in s;
      var a :| 0 <= a < |events| && events[a] == s[i];
      var b :| 0 <= b < |events| && events[b] == s[j];
      assert a != b;
    }
  }

  /** A day just rebalanced has no tie left, so a second check of the same
      day changes nothing. */
  lemma RebalanceIdempotent(events: seq<Event>, d: Option<int>)
    requires UniqueIds(events)
    ensures RebalanceDay(RenumberedDay(events, d), d) == RenumberedDay(events, d)
  {
    var after := RenumberedDay(events, d);
    RebalanceDistinct(events, d);
    WithRanksUnique(events, SortByKey(OfDay(events, d)), DayRank);
    NoTieNoRebalance(after, d);
  }

  lemma WithRanksUnique(events: seq<Event>, ranked: seq<Event>, how: Renumbering)
    requires UniqueIds(events)
    ensures UniqueIds(WithRanks(events, ranked, how))
  {
  }

  /** One more ranked event: its id gets the last rank, other ids keep
      theirs. */
  lemma RankPrefix(ranked: seq<Event>, idx: nat, id: EventId)
    requires UniqueIds(ranked) && idx < |ranked|
    ensures IndexOfId(ranked[..idx + 1], id) ==
      if id == ranked[idx].id then Some(idx) else IndexOfId(ranked[..idx], id)
  {
    assert ranked[..idx + 1] == ranked[..idx] + [ranked[idx]];
    IndexOfIdSnoc(ranked[..idx], ranked[idx], id);
    if id == ranked[idx].id {
      forall i | 0 <= i < idx
        ensures ranked[..idx][i].id != id
      {
        assert ranked[..idx][i] == ranked[i];
      }
    }
  }

  /** Renumbering by one more ranked event changes only the row with its id,
      which gets that event's rank. */
  lemma WithRanksStep(events: seq<Event>, ranked: seq<Event>, idx: nat, how: Renumbering)
    requires UniqueIds(events) && UniqueIds(ranked) && idx < |ranked|
    ensures IndexOfId(events, ranked[idx].id).None? ==>
      WithRanks(events, ranked[..idx + 1], how) == WithRanks(events, ranked[..idx], how)
    ensures IndexOfId(events, ranked[idx].id).Some? ==>
      var j := IndexOfId(events, ranked[idx].id).value;
      WithRanks(events, ranked[..idx + 1], how) ==
        WithRanks(events, ranked[..idx], how)[j := Renumbered(events[j], idx, how)]
  {
    var id := ranked[idx].id;
    var before := WithRanks(events, ranked[..idx], how);
    var after := WithRanks(events, ranked[..idx + 1], how);
    forall j | 0 <= j < |events|
      ensures after[j] == if events[j].id == id then Renumbered(events[j], idx, how) else before[j]
    {
      RankPrefix(ranked, idx, events[j].id);
      assert after[j] == RankedEvent(events[j], ranked[..idx + 1], how);
      assert before[j] == RankedEvent(events[j], ranked[..idx], how);
    }
  }

  // ---------------------------------------------------------------------
  // reorder: the items applied in order

  /** A validated reorder item: only `id` and an integer `order` exist. */
  datatype ReorderItem = ReorderItem(id: EventId, order: int)

  /** `day_order = Decimal(str(order))`, `order = int(order)`. */
  function SetOrder(e: Event, order: int): (r: Event)
    ensures r == e.(dayOrder := order * DAY_ORDER_SCALE, order := order)
  {
    e.(dayOrder := order * DAY_ORDER_SCALE, order := order)
  }

  /** The items applied one after another, or None when an item's id is not
      an event of the trip (the 404 that rolls the block back). */
  function ApplyReorder(events: seq<Event>, items: seq<ReorderItem>): Option<seq<Event>>
    decreases |items|
  {
    if items == [] then Some(events)
    else
      match ApplyReorder(events, items[..|items| - 1])
      case None => None
      case Some(es) =>
        var it := items[|items| - 1];
        match IndexOfId(es, it.id)
        case None => None
        case Some(j) => Some(es[j := SetOrder(es[j], it.order)])
  }

  /** The order the last item naming `id` carries. */
  function LastOrder(items: seq<ReorderItem>, id: EventId): (r: Option<int>)
    ensures r.None? <==> forall it :: it in items ==> it.id != id
    ensures r.Some? ==> ReorderItem(id, r.value) in items
    decreases |items|
  {
    if items == [] then None
    else if items[|items| - 1].id == id then Some(items[|items| - 1].order)
    else
      assert items == items[..|items| - 1] + [items[|items| - 1]];
      LastOrder(items[..|items| - 1], id)
  }

  function Reordered(e: Event, items: seq<ReorderItem>): Event {
    match LastOrder(items, e.id)
    case None => e
    case Some(o) => SetOrder(e, o)
  }

  predicate AllKnown(events: seq<Event>, items: seq<ReorderItem>) {
    forall it :: it in items ==> exists e :: e in events && e.id == it.id
  }

  /** Reorder succeeds exactly when every item names an event of the trip;
      then each named event takes day_order and order from the LAST item
      naming it, and every other field and every other event is unchanged. */
  lemma {:induction false} ReorderClosedForm(events: seq<Event>, items: seq<ReorderItem>)
    requires UniqueIds(events)
    ensures ApplyReorder(events, items).Some? <==> AllKnown(events, items)
    ensures ApplyReorder(events, items).Some? ==>
      var r := ApplyReorder(events, items).value;
      |r| == |events| && forall j :: 0 <= j < |events| ==> r[j] == Reordered(events[j], items)
    decreases |items|
  {
    if items != [] {
      var init := items[..|items| - 1];
      var it := items[|items| - 1];
      assert items == init + [it];
      ReorderClosedForm(events, init);
      if ApplyReorder(events, init).Some? {
        var es := ApplyReorder(events, init).value;
        assert forall j :: 0 <= j < |es| ==> es[j].id == events[j].id;
        if IndexOfId(es, it.id).Some? {
          var j0 := IndexOfId(es, it.id).value;
          var r := es[j0 := SetOrder(es[j0], it.order)];
          forall j | 0 <= j < |events|
            ensures r[j] == Reordered(events[j], items)
          {
            if j == j0 {
              assert LastOrder(items, events[j].id) == Some(it.order);
            } else {
              assert events[j].id != it.id;
              assert LastOrder(items, events[j].id) == LastOrder(init, events[j].id);
            }
          }
          assert events[j0] in events;
        } else {
          assert it in items;
          assert !AllKnown(events, items) by {
            forall e | e in events
              ensures e.id != it.id
            {
              var j :| 0 <= j < |events| && events[j] == e;
              assert es[j].id == e.id;
            }
          }
        }
      } else {
        assert !AllKnown(events, init);
      }
    }
  }

  // ---------------------------------------------------------------------
  // update: a partial update of the serializer's fields

  /** The fields of EventUpdateSerializer that the request carries. A present
      `day` or `durationMin` may be null. */
  datatype EventPatch = EventPatch(
    placeName: Option<string>,
    address: Option<string>,
    activityType: Option<string>,
    customTitle: Option<string>,
    day: Option<Option<int>>,
    startTime: Option<string>,
    durationMin: Option<Option<int>>,
    memo: Option<string>)

  /** The event with every present field of the patch written and every
      other field, ordering keys and location included, kept. */
  function Patched(e: Event, u: EventPatch): (r: Event)
    ensures r.id == e.id && r.order == e.order && r.globalOrder == e.globalOrder
    ensures r.dayOrder == e.dayOrder && r.placeId == e.placeId && r.lat == e.lat && r.lng == e.lng
    ensures u.placeName.Some? ==> r.placeName == u.placeName.value
    ensures u.placeName.None? ==> r.placeName == e.placeName
    ensures u.address.Some? ==> r.address == u.address.value
    ensures u.address.None? ==> r.address == e.address
    ensures u.activityType.Some? ==> r.activityType == u.activityType.value
    ensures u.activityType.None? ==> r.activityType == e.activityType
    ensures u.customTitle.Some? ==> r.customTitle == u.customTitle.value
    ensures u.customTitle.None? ==> r.customTitle == e.customTitle
    ensures u.day.Some? ==> r.day == u.day.value
    ensures u.day.None? ==> r.day == e.day
    ensures u.startTime.Some? ==> r.startTime == u.startTime.value
    ensures u.startTime.None? ==> r.startTime == e.startTime
    ensures u.durationMin.Some? ==> r.durationMin == u.durationMin.value
    ensures u.durationMin.None? ==> r.durationMin == e.durationMin
    ensures u.memo.Some? ==> r.memo == u.memo.value
    ensures u.memo.None? ==> r.memo == e.memo
  {
    e.(placeName := u.placeName.GetOr(e.placeName),
       address := u.address.GetOr(e.address),
       activityType := u.activityType.GetOr(e.activityType),
       customTitle := u.customTitle.GetOr(e.customTitle),
       day := u.day.GetOr(e.day),
       startTime := u.startTime.GetOr(e.startTime),
       durationMin := u.durationMin.GetOr(e.durationMin),
       memo := u.memo.GetOr(e.memo))
  }

  /** An empty patch changes nothing. */
  lemma EmptyPatch(e: Event)
    ensures Patched(e, EventPatch(None, None, None, None, None, None, None, None)) == e
  {
  }

  // ---------------------------------------------------------------------
  // update_route: the next event, its segment and its cost

  /** The event of day `d` with the smallest day_order above `key`
      (`filter(day=d, day_order__gt=key).order_by('day_order').first()`);
      a null day matches null days only. Among equal day_orders the first
      in table order is taken. */
  function NextInDay(s: seq<Event>, d: Option<int>, key: int): (r: Option<Event>)
    ensures r.None? <==> forall x :: x in s && x.day == d ==> x.dayOrder <= key
    ensures r.Some? ==> r.value in s && r.value.day == d && r.value.dayOrder > key
    ensures r.Some? ==> forall x :: x in s && x.day == d && x.dayOrder > key ==> r.value.dayOrder <= x.dayOrder
    decreases |s|
  {
    if s == [] then None
    else
      var x := s[|s| - 1];
      assert s == s[..|s| - 1] + [x];
      var m := NextInDay(s[..|s| - 1], d, key);
      if x.day == d && x.dayOrder > key && (m.None? || x.dayOrder < m.value.dayOrder) then Some(x) else m
  }

  /** The position of the stored segment for a pair, if any. */
  function IndexOfPair(segs: seq<Segment>, p: Pair): (r: Option<nat>)
    ensures r.Some? ==> r.value < |segs| && SegPair(segs[r.value]) == p
    ensures r.None? <==> forall s :: s in segs ==> SegPair(s) != p
    decreases |segs|
  {
    if segs == [] then None
    else if SegPair(segs[0]) == p then Some(0)
    else match IndexOfPair(segs[1..], p)
      case None =>
        assert forall s :: s in segs ==> s == segs[0] || s in segs[1..];
        None
      case Some(k) => Some(k + 1)
  }

  /** `travel_mode or 'DRIVING'`: the mode a segment created by
      `get_or_create` is stored with. It is not checked against the four
      modes. */
  function CreatedMode(travelMode: Option<string>): (m: string)
    ensures travelMode.None? || travelMode.value == "" ==> m == "DRIVING"
    ensures travelMode.Some? && travelMode.value != "" ==> m == travelMode.value
  {
    if travelMode.Some? && travelMode.value != "" then travelMode.value else "DRIVING"
  }

  /** The segment `get_or_create` makes for a new leg. */
  function FreshSegment(id: SegmentId, p: Pair, travelMode: Option<string>): (s: Segment)
    ensures s.id == id && SegPair(s) == p && s.travelMode == CreatedMode(travelMode)
    ensures s.durationMin == DEFAULT_DURATION && s.distanceKm == DEFAULT_DISTANCE
  {
    Segment(id, p.from, p.to, DEFAULT_DURATION, DEFAULT_DISTANCE, "", CreatedMode(travelMode), "")
  }

  /** The field updates of `update_route`: the mode changes only to one of
      the four accepted modes, the departure time whenever one is sent. */
  function EditedSegment(s: Segment, travelMode: Option<string>, departure: Option<string>): (r: Segment)
    ensures r.id == s.id && SegPair(r) == SegPair(s)
    ensures r.durationMin == s.durationMin && r.distanceKm == s.distanceKm && r.polyline == s.polyline
    ensures r.travelMode != s.travelMode ==> travelMode.Some? && IsTravelMode(r.travelMode) && r.travelMode == travelMode.value
    ensures travelMode.Some? && IsTravelMode(travelMode.value) ==> r.travelMode == travelMode.value
    ensures departure.Some? ==> r.departureTime == departure.value
    ensures departure.None? ==> r.departureTime == s.departureTime
  {
    var s1 := if travelMode.Some? && IsTravelMode(travelMode.value) then s.(travelMode := travelMode.value) else s;
    if departure.Some? then s1.(departureTime := departure.value) else s1
  }

  /** The position of the cost row of a segment, if any. */
  function IndexOfSegmentCost(costs: seq<Cost>, sid: SegmentId): (r: Option<nat>)
    ensures r.Some? ==> r.value < |costs| && costs[r.value].segmentId == Some(sid)
    ensures r.None? <==> forall c :: c in costs ==> c.segmentId != Some(sid)
    decreases |costs|
  {
    if costs == [] then None
    else if costs[0].segmentId == Some(sid) then Some(0)
    else match IndexOfSegmentCost(costs[1..], sid)
      case None =>
        assert forall c :: c in costs ==> c == costs[0] || c in costs[1..];
        None
      case Some(k) => Some(k + 1)
  }

  /** At most one cost row per segment (what `get_or_create` on the segment
      relies on). */
  predicate OneCostPerSegment(costs: seq<Cost>) {
    forall i, j :: 0 <= i < j < |costs| && costs[i].segmentId.Some? ==> costs[i].segmentId != costs[j].segmentId
  }

  /** The cost rows after `update_route`'s cost step: a positive cost upserts
      the segment's one TRANSPORTATION cost, a cost of zero or less deletes
      the segment's costs, and no cost leaves them alone. */
  function CostsAfterEdit(costs: seq<Cost>, sid: SegmentId, cost: Option<real>, currency: string,
                          description: string, newId: CostId): (r: seq<Cost>)
    ensures cost.None? ==> r == costs
    ensures cost.Some? && cost.value > 0.0 ==>
      exists c :: c in r && c.segmentId == Some(sid) && c.amount == cost.value && c.currency == currency
    ensures cost.Some? && cost.value <= 0.0 ==> forall c :: c in r ==> c.segmentId != Some(sid)
    ensures forall c :: c in costs && c.segmentId != Some(sid) ==> c in r
    ensures forall c :: c in r && c.segmentId != Some(sid) ==> c in costs
  {
    match cost
    case None => costs
    case Some(amount) =>
      if amount > 0.0 then
        match IndexOfSegmentCost(costs, sid)
        case Some(k) =>
          var r := costs[k := costs[k].(amount := amount, currency := currency)];
          assert r[k] in r;
          assert forall c :: c in costs && c != costs[k] ==> c in r by {
            forall c | c in costs && c != costs[k]
              ensures c in r
            {
              var i :| 0 <= i < |costs| && costs[i] == c;
              assert r[i] == c;
            }
          }
          assert forall c :: c in r && c != r[k] ==> c in costs by {
            forall c | c in r && c != r[k]
              ensures c in costs
            {
              var i :| 0 <= i < |r| && r[i] == c;
              assert costs[i] == c;
            }
          }
          r
        case None =>
          costs + [Cost(newId, None, Some(sid), amount, currency, "TRANSPORTATION", description)]
      else FilterCosts(costs, (c: Cost) => c.segmentId != Some(sid))
  }

  /** The description of a new leg cost. */
  function LegCostDescription(from: Event, to: Event): string {
    from.placeName + " → " + to.placeName + " 이동 비용"
  }

  /** A positive cost leaves a single cost row for the segment when the rows
      had at most one per segment. */
  lemma UpsertKeepsOneCost(costs: seq<Cost>, sid: SegmentId, amount: real, currency: string,
                           description: string, newId: CostId)
    requires OneCostPerSegment(costs) && amount > 0.0
    ensures OneCostPerSegment(CostsAfterEdit(costs, sid, Some(amount), currency, description, newId))
  {
    var r := CostsAfterEdit(costs, sid, Some(amount), currency, description, newId);
    if IndexOfSegmentCost(costs, sid).Some? {
      var k := IndexOfSegmentCost(costs, sid).value;
      assert forall i :: 0 <= i < |r| ==> r[i].segmentId == costs[i].segmentId;
    } else {
      forall i, j | 0 <= i < j < |r| && r[i].segmentId.Some?
        ensures r[i].segmentId != r[j].segmentId
      {
        if j == |costs| {
          assert costs[i] in costs;
        }
      }
    }
  }
}
