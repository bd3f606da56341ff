/** The week grid (components/WeeklySchedule/WeeklyScheduleView.tsx): one
    column for each of the first seven days, a block per timed place placed
    by its time, and a connector for a leg when there is room for it. */
module WeeklyScheduleView {
  import opened Common
  import opened ScheduleTypes
  import opened ScheduleView

  /** The grid has seven columns. */
  const COLUMNS: int := 7

  /** The grid starts at 9 o'clock, 80 pixels to the hour. */
  const START_HOUR: int := 9
  const PIXELS_PER_HOUR: real := 80.0

  // ---------------------------------------------------------------------
  // Columns

  /** The column of a place, `day - 1`; none without a (non-zero) day or
      past the seventh day. */
  function ColumnKey(p: DayPlace): (r: Option<int>)
    ensures r.Some? <==> p.day.Some? && 1 <= p.day.value <= COLUMNS
    ensures r.Some? ==> r.value == p.day.value - 1 && 0 <= r.value < COLUMNS
  {
    if p.day.Some? && p.day.value != 0 && 0 <= p.day.value - 1 < COLUMNS then Some(p.day.value - 1) else None
  }

  /** `placesByColumn`: the places of each column in list order, each
      column then sorted by visit time. */
  method PlacesByColumn(places: seq<DayPlace>) returns (byColumn: map<int, seq<DayPlace>>)
    ensures forall c :: c in byColumn <==> exists k :: 0 <= k < |places| && ColumnKey(places[k]) == Some(c)
    ensures forall c :: c in byColumn ==> byColumn[c] == SortByTime(GroupOf(places, ColumnKey, c))
  {
    var groups := GroupBy(places, ColumnKey);
    ColumnsListed(places, groups);
    byColumn := SortEach(groups, ColumnKeys(places));
  }

  /** `Object.keys(placesByColumn)`: the column of each place, in list
      order (-1 for a place with none, which names no column). */
  function ColumnKeys(places: seq<DayPlace>): (r: seq<int>)
    ensures |r| == |places|
    ensures forall k :: 0 <= k < |places| ==> r[k] == ColumnKey(places[k]).GetOr(-1)
  {
    seq(|places|, k requires 0 <= k < |places| => ColumnKey(places[k]).GetOr(-1))
  }

  /** Every column a place has is listed. */
  lemma ColumnsListed(places: seq<DayPlace>, groups: map<int, seq<DayPlace>>)
    requires forall c :: c in groups ==> exists k :: 0 <= k < |places| && ColumnKey(places[k]) == Some(c)
    ensures forall c :: c in groups ==> c in ColumnKeys(places)
  {
    forall c | c in groups
      ensures c in ColumnKeys(places)
    {
      var k :| 0 <= k < |places| && ColumnKey(places[k]) == Some(c);
      assert ColumnKeys(places)[k] == c;
    }
  }

  /** A column (as `PlacesByColumn` builds it) holds exactly the places
      whose day it shows: column `c` the places of day `c + 1`, for the
      first seven days only. */
  lemma ColumnHoldsItsDay(places: seq<DayPlace>, c: int, x: DayPlace)
    ensures x in SortByTime(GroupOf(places, ColumnKey, c)) <==> x in places && x.day == Some(c + 1) && 0 <= c < COLUMNS
  {
    var g := GroupOf(places, ColumnKey, c);
    SortedMembers(g, x);
    ColumnKeyIs(x, c);
  }

  /** Sorting keeps membership. */
  lemma SortedMembers(g: seq<DayPlace>, x: DayPlace)
    ensures x in SortByTime(g) <==> x in g
  {
    SortByTimeMultiset(g);
    assert x in SortByTime(g) <==> x in multiset(SortByTime(g));
  }

  /** A place has column `c` exactly when its day is `c + 1` within the
      first seven. */
  lemma ColumnKeyIs(x: DayPlace, c: int)
    ensures ColumnKey(x) == Some(c) <==> x.day == Some(c + 1) && 0 <= c < COLUMNS
  {
  }

  // ---------------------------------------------------------------------
  // Blocks

  /** `getRouteSegment`: the leg between two blocks, found by the places'
      own ids (not their map place ids). */
  function GetRouteSegment(segs: seq<Segment>, from: DayPlace, to: DayPlace): (r: Option<Segment>)
    ensures r.Some? ==> r.value in segs && r.value.fromPlaceId == from.id && r.value.toPlaceId == to.id
    ensures r.None? <==> forall k :: 0 <= k < |segs| ==> !(segs[k].fromPlaceId == from.id && segs[k].toPlaceId == to.id)
  {
    FindSegment(segs, from.id, to.id)
  }

  /** A block's position; a time that does not read gives a NaN top
      (`None`). */
  datatype Style = Style(top: Option<real>, height: real)

  /** The height for a duration. */
  function Height(minutes: int): real {
    (minutes as real / 60.0) * PIXELS_PER_HOUR
  }

  /** `getPlaceStyle`: none without a visit time; else the top is the
      time's distance from 9 o'clock and the height its duration (90
      minutes when none is set), at 80 pixels to the hour. */
  function PlaceStyle(p: DayPlace): (r: Option<Style>)
    ensures r.Some? <==> HasTime(p)
    ensures r.Some? ==> r.value.height == Height(DurationOr(p, 90))
    ensures r.Some? ==> (r.value.top.Some? <==> ClockMinutes(p.visitTime.value).Some?)
    ensures r.Some? && r.value.top.Some? ==> r.value.top.value == Height(ClockMinutes(p.visitTime.value).value - START_HOUR * 60)
  {
    if !HasTime(p) then None
    else
      var top := match Clock(p.visitTime.value)
        case None => None
        case Some((h, m)) => Some(((((h - START_HOUR) * 60 + m) as real) / 60.0) * PIXELS_PER_HOUR);
      Some(Style(top, Height(DurationOr(p, 90))))
  }

  /** The connector below the block at `idx`: there is a next block, a leg
      to it, a time on it, and a strictly positive gap between this block's
      bottom and its top. NaN never makes a gap. */
  predicate Connector(dayPlaces: seq<DayPlace>, idx: nat, segs: seq<Segment>)
    requires idx < |dayPlaces|
  {
    && PlaceStyle(dayPlaces[idx]).Some?
    && idx + 1 < |dayPlaces|
    && GetRouteSegment(segs, dayPlaces[idx], dayPlaces[idx + 1]).Some?
    && HasTime(dayPlaces[idx + 1])
    && var style := PlaceStyle(dayPlaces[idx]).value;
    && var next := PlaceStyle(dayPlaces[idx + 1]).value;
    && style.top.Some? && next.top.Some?
    && next.top.value - (style.top.value + style.height) > 0.0
  }

  /** Pixels are minutes to scale. */
  lemma HeightMonotone(a: int, b: int)
    ensures Height(a) < Height(b) <==> a < b
    ensures Height(a) + Height(b) == Height(a + b)
  {
  }

  /** A connector is drawn exactly when the next place starts after this
      one ends, both times read in minutes. */
  lemma ConnectorWhenGap(dayPlaces: seq<DayPlace>, idx: nat, segs: seq<Segment>)
    requires idx < |dayPlaces|
    ensures Connector(dayPlaces, idx, segs) <==>
      && idx + 1 < |dayPlaces|
      && HasTime(dayPlaces[idx]) && HasTime(dayPlaces[idx + 1])
      && GetRouteSegment(segs, dayPlaces[idx], dayPlaces[idx + 1]).Some?
      && ClockMinutes(dayPlaces[idx].visitTime.value).Some? && ClockMinutes(dayPlaces[idx + 1].visitTime.value).Some?
      && ClockMinutes(dayPlaces[idx + 1].visitTime.value).value >
         ClockMinutes(dayPlaces[idx].visitTime.value).value + DurationOr(dayPlaces[idx], 90)
  {
    if idx + 1 < |dayPlaces| && HasTime(dayPlaces[idx]) && HasTime(dayPlaces[idx + 1])
      && ClockMinutes(dayPlaces[idx].visitTime.value).Some? && ClockMinutes(dayPlaces[idx + 1].visitTime.value).Some?
    {
      var a := ClockMinutes(dayPlaces[idx].visitTime.value).value - START_HOUR * 60;
      var b := ClockMinutes(dayPlaces[idx + 1].visitTime.value).value - START_HOUR * 60;
      var d := DurationOr(dayPlaces[idx], 90);
      HeightMonotone(a, d);
      HeightMonotone(a + d, b);
    }
  }

  /** The end time written on a block that starts at `start` and lasts
      `duration` minutes (90 when none is set): hours not wrapped at
      midnight. */
  function EndTime(start: string, duration: int): string {
    ShiftClock(start, duration, false)
  }

  /** Read back, the end time is the start plus the duration, so a block
      running past midnight ends at "24:00" or later. */
  lemma EndTimeReadsBack(start: string, duration: int)
    requires ClockMinutes(start).Some? && ClockMinutes(start).value + duration >= 0
    ensures ClockMinutes(EndTime(start, duration)) == Some(ClockMinutes(start).value + duration)
  {
    ShiftClockReadsBack(start, duration, false);
  }

  /** The end time of a block. */
  function BlockEnd(p: DayPlace): string
    requires HasTime(p)
  {
    EndTime(p.visitTime.value, DurationOr(p, 90))
  }
}
