/** The week page in server mode (pages/WeeklySchedulePage.tsx): the trip's
    day details, as the server sends them, turned into the places and legs
    the week grid draws. */
module WeeklySchedulePage {
  import opened Common
  import opened ScheduleTypes
  import WeeklyScheduleView

  /** The leg from an event to the next one. */
  datatype NextRoute = NextRoute(durationMin: int, distanceKm: real, travelMode: Option<TravelMode>, departureTime: Option<string>)

  /** One event of a day detail. */
  datatype ServerEvent = ServerEvent(
    id: int,
    placeId: string,
    name: string,
    time: Option<string>,
    durationMin: Option<int>,
    nextRoute: Option<NextRoute>)

  /** One day's detail; its event list may be missing. */
  datatype DayDetail = DayDetail(events: Option<seq<ServerEvent>>)

  /** `day.events || []`. */
  function EventsOf(d: DayDetail): seq<ServerEvent> {
    d.events.GetOr([])
  }

  /** `x || undefined` on a string: the empty string is dropped. */
  function NonEmpty(s: Option<string>): (r: Option<string>)
    ensures r.Some? <==> s.Some? && s.value != ""
    ensures r.Some? ==> r == s
  {
    if s.Some? && s.value != "" then s else None
  }

  /** `x || undefined` on a number: zero is dropped. */
  function NonZero(n: Option<int>): (r: Option<int>)
    ensures r.Some? <==> n.Some? && n.value != 0
    ensures r.Some? ==> r == n
  {
    if n.Some? && n.value != 0 then n else None
  }

  /** The place for the event at `eventIndex` of day `dayIndex + 1`. */
  function PlaceOf(e: ServerEvent, dayIndex: nat, eventIndex: nat): DayPlace {
    DayPlace(IntToString(e.id), e.placeId, e.name, Some(dayIndex + 1), eventIndex as real, NonEmpty(e.time), NonZero(e.durationMin))
  }

  /** The places of one day, in event order. */
  function DayPlacesOf(events: seq<ServerEvent>, dayIndex: nat): (r: seq<DayPlace>)
    ensures |r| == |events|
    ensures forall k :: 0 <= k < |r| ==> r[k] == PlaceOf(events[k], dayIndex, k)
  {
    seq(|events|, k requires 0 <= k < |events| => PlaceOf(events[k], dayIndex, k))
  }

  /** The number of events over all days. */
  function EventCount(days: seq<DayDetail>): nat
    decreases |days|
  {
    if days == [] then 0 else EventCount(days[..|days| - 1]) + |EventsOf(days[|days| - 1])|
  }

  /** The number of days with at least one event. */
  function BusyDays(days: seq<DayDetail>): nat
    decreases |days|
  {
    if days == [] then 0 else BusyDays(days[..|days| - 1]) + if EventsOf(days[|days| - 1]) == [] then 0 else 1
  }

  /** `convertedPlaces`: the places of every day, day after day, each with
      its day number. */
  function ConvertPlaces(days: seq<DayDetail>): (r: seq<DayPlace>)
    ensures |r| == EventCount(days)
    decreases |days|
  {
    if days == [] then []
    else ConvertPlaces(days[..|days| - 1]) + DayPlacesOf(EventsOf(days[|days| - 1]), |days| - 1)
  }

  /** Every converted place has a day within the trip. */
  lemma {:induction false} ConvertedDay(days: seq<DayDetail>, i: nat)
    requires i < |ConvertPlaces(days)|
    ensures ConvertPlaces(days)[i].day.Some? && 1 <= ConvertPlaces(days)[i].day.value <= |days|
    decreases |days|
  {
    var front := days[..|days| - 1];
    if i < |ConvertPlaces(front)| {
      ConvertedDay(front, i);
    }
  }

  /** The `k`-th event of day `d + 1` is the place after all the events of
      the earlier days. */
  lemma {:induction false} ConvertedPlaceAt(days: seq<DayDetail>, d: nat, k: nat)
    requires d < |days| && k < |EventsOf(days[d])|
    ensures EventCount(days[..d]) + k < |ConvertPlaces(days)|
    ensures ConvertPlaces(days)[EventCount(days[..d]) + k] == PlaceOf(EventsOf(days[d])[k], d, k)
    decreases |days|
  {
    var last := |days| - 1;
    var front := days[..last];
    if d == last {
      assert days[..d] == front;
    } else {
      assert front[..d] == days[..d] && front[d] == days[d];
      ConvertedPlaceAt(front, d, k);
    }
  }

  /** The leg an event with a route gives, to the event after it. */
  function SegmentOf(e: ServerEvent, next: ServerEvent): (s: Segment)
    requires e.nextRoute.Some?
    ensures s.fromPlaceId == IntToString(e.id) && s.toPlaceId == IntToString(next.id)
  {
    var route := e.nextRoute.value;
    Segment(IntToString(e.id), IntToString(next.id), route.durationMin, route.distanceKm, route.travelMode, NonEmpty(route.departureTime))
  }

  /** The legs of one day: one for each event with a route that is not the
      day's last, so fewer legs than events. */
  function DaySegments(events: seq<ServerEvent>): (r: seq<Segment>)
    ensures events != [] ==> |r| <= |events| - 1
    ensures events == [] ==> r == []
    decreases |events|
  {
    if |events| <= 1 then []
    else
      var rest := DaySegments(events[1..]);
      if events[0].nextRoute.Some? then [SegmentOf(events[0], events[1])] + rest else rest
  }

  /** A day's legs are exactly those from an event with a route to the
      event after it. */
  lemma {:induction false} DaySegmentsAre(events: seq<ServerEvent>, s: Segment)
    ensures s in DaySegments(events) <==>
      exists k :: 0 <= k < |events| - 1 && events[k].nextRoute.Some? && s == SegmentOf(events[k], events[k + 1])
    decreases |events|
  {
    if |events| > 1 {
      var tail := events[1..];
      DaySegmentsAre(tail, s);
      if s in DaySegments(tail) {
        var j :| 0 <= j < |tail| - 1 && tail[j].nextRoute.Some? && s == SegmentOf(tail[j], tail[j + 1]);
        assert events[j + 1] == tail[j] && events[j + 2] == tail[j + 1];
      }
      if exists k :: 0 <= k < |events| - 1 && events[k].nextRoute.Some? && s == SegmentOf(events[k], events[k + 1]) {
        var k :| 0 <= k < |events| - 1 && events[k].nextRoute.Some? && s == SegmentOf(events[k], events[k + 1]);
        if k > 0 {
          assert tail[k - 1] == events[k] && tail[k] == events[k + 1];
        }
      }
    }
  }

  /** `convertedSegments`: the legs of every day, day after day; never
      more than one fewer than the events of each busy day. */
  function ConvertSegments(days: seq<DayDetail>): (r: seq<Segment>)
    ensures |r| + BusyDays(days) <= EventCount(days)
    decreases |days|
  {
    if days == [] then []
    else ConvertSegments(days[..|days| - 1]) + DaySegments(EventsOf(days[|days| - 1]))
  }

  /** Every leg of every day is among the converted legs. */
  lemma {:induction false} DayLegConverted(days: seq<DayDetail>, d: nat, s: Segment)
    requires d < |days| && s in DaySegments(EventsOf(days[d]))
    ensures s in ConvertSegments(days)
    decreases |days|
  {
    var last := |days| - 1;
    var front := days[..last];
    if d < last {
      assert front[d] == days[d];
      DayLegConverted(front, d, s);
    }
  }

  /** The page names a leg by the ids it gives the two places, which is how
      the grid looks legs up (`FoundWhenListed`): every leg the server
      reports after an event is among the converted legs and runs from
      that event's block id to the next event's block id. */
  lemma LegBetweenBlocks(days: seq<DayDetail>, d: nat, k: nat)
    requires d < |days| && k + 1 < |EventsOf(days[d])| && EventsOf(days[d])[k].nextRoute.Some?
    ensures EventCount(days[..d]) + k + 1 < |ConvertPlaces(days)|
    ensures SegmentOf(EventsOf(days[d])[k], EventsOf(days[d])[k + 1]) in ConvertSegments(days)
    ensures SegmentOf(EventsOf(days[d])[k], EventsOf(days[d])[k + 1]).fromPlaceId == ConvertPlaces(days)[EventCount(days[..d]) + k].id
    ensures SegmentOf(EventsOf(days[d])[k], EventsOf(days[d])[k + 1]).toPlaceId == ConvertPlaces(days)[EventCount(days[..d]) + k + 1].id
  {
    var i := EventCount(days[..d]) + k;
    BlockId(days, d, k, i);
    BlockId(days, d, k + 1, i + 1);
    LegConverted(days, d, k);
  }

  /** The block of an event, at index `i` of the converted places, carries
      the event's id. */
  lemma BlockId(days: seq<DayDetail>, d: nat, k: nat, i: int)
    requires d < |days| && k < |EventsOf(days[d])| && i == EventCount(days[..d]) + k
    ensures 0 <= i < |ConvertPlaces(days)|
    ensures ConvertPlaces(days)[i].id == IntToString(EventsOf(days[d])[k].id)
  {
    ConvertedPlaceAt(days, d, k);
  }

  /** The leg after an event with a route is among the converted legs. */
  lemma LegConverted(days: seq<DayDetail>, d: nat, k: nat)
    requires d < |days| && k + 1 < |EventsOf(days[d])| && EventsOf(days[d])[k].nextRoute.Some?
    ensures SegmentOf(EventsOf(days[d])[k], EventsOf(days[d])[k + 1]) in ConvertSegments(days)
  {
    var events := EventsOf(days[d]);
    var s := SegmentOf(events[k], events[k + 1]);
    DaySegmentsAre(events, s);
    DayLegConverted(days, d, s);
  }

  /** A listed leg whose ends are the ids of two blocks is found between
      them. */
  lemma FoundWhenListed(segs: seq<Segment>, s: Segment, from: DayPlace, to: DayPlace)
    requires s in segs && s.fromPlaceId == from.id && s.toPlaceId == to.id
    ensures WeeklyScheduleView.GetRouteSegment(segs, from, to).Some?
  {
    var j :| 0 <= j < |segs| && segs[j] == s;
  }
}
