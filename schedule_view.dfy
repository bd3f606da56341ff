/** The day timetable (pages/ScheduleView.tsx): places grouped by day and
    ordered by visit time, then laid out in side-by-side lanes so that blocks
    whose times overlap never share a lane. */
module ScheduleView {
  import opened Common
  import opened ScheduleTypes

  // ---------------------------------------------------------------------
  // Grouping by day

  /** `place.day || 1` as a grouping key: every place has a day. */
  function DayGroup(p: DayPlace): (r: Option<int>)
    ensures r == Some(DayKey(p))
  {
    Some(DayKey(p))
  }

  /** `placesByDay`: the places of each day (a missing day counts as day 1),
      each list then sorted in place by visit time. */
  method PlacesByDay(places: seq<DayPlace>) returns (byDay: map<int, seq<DayPlace>>)
    ensures forall d :: d in byDay <==> exists k :: 0 <= k < |places| && DayKey(places[k]) == d
    ensures forall d :: d in byDay ==> byDay[d] == SortByTime(GroupOf(places, DayGroup, d))
  {
    var groups := GroupBy(places, DayGroup);
    var days := seq(|places|, k requires 0 <= k < |places| => DayKey(places[k]));
    forall d | d in groups
      ensures d in days
    {
      var k :| 0 <= k < |places| && DayKey(places[k]) == d;
      assert days[k] == d;
    }
    byDay := SortEach(groups, days);
  }

  /** `Object.keys(placesByDay).forEach(... sort ...)`: every list of the
      map sorted by visit time. The days are visited in the order `keys`
      names them, each once; that order does not change the result. */
  method SortEach(groups: map<int, seq<DayPlace>>, keys: seq<int>) returns (byDay: map<int, seq<DayPlace>>)
    requires forall d :: d in groups ==> d in keys
    ensures byDay.Keys == groups.Keys
    ensures forall d :: d in byDay ==> byDay[d] == SortByTime(groups[d])
  {
    byDay := groups;
    var done: set<int> := {};
    for i := 0 to |keys|
      invariant byDay.Keys == groups.Keys
      invariant forall k :: 0 <= k < i ==> keys[k] in done
      invariant forall d :: d in byDay ==> byDay[d] == if d in done then SortByTime(groups[d]) else groups[d]
    {
      var day := keys[i];
      if day in groups && day !in done {
        byDay := byDay[day := SortByTime(byDay[day])];
      }
      done := done + {day};
    }
  }

  /** A place is shown under its own day, a place without one under day 1,
      in a list that is in visit-time order and holds just that day's
      places. */
  lemma PlaceShownUnderItsDay(places: seq<DayPlace>, byDay: map<int, seq<DayPlace>>, k: nat)
    requires k < |places|
    requires forall d :: d in byDay <==> exists j :: 0 <= j < |places| && DayKey(places[j]) == d
    requires forall d :: d in byDay ==> byDay[d] == SortByTime(GroupOf(places, DayGroup, d))
    ensures DayKey(places[k]) in byDay
    ensures places[k].day.None? ==> 1 in byDay && places[k] in byDay[1]
    ensures places[k] in byDay[DayKey(places[k])] && SortedByTime(byDay[DayKey(places[k])])
    ensures multiset(byDay[DayKey(places[k])]) == multiset(GroupOf(places, DayGroup, DayKey(places[k])))
  {
    var d := DayKey(places[k]);
    var g := GroupOf(places, DayGroup, d);
    assert places[k] in g;
    SortByTimeMultiset(g);
    SortByTimeSorted(g);
    assert places[k] in multiset(byDay[d]);
  }

  // ---------------------------------------------------------------------
  // Lanes

  /** A place with the lane it is drawn in and the number of lanes its
      row of overlapping blocks is divided into. */
  datatype Laned = Laned(place: DayPlace, lane: nat, totalLanes: nat)

  /** `[start, end)` in minutes of the day: the visit time read as
      `h * 60 + m` and `durationMin || 60` added; `None` when the time is
      missing or does not read as a number (NaN). */
  function Span(p: DayPlace): (r: Option<(int, int)>)
    ensures r.Some? ==> HasTime(p) && ClockMinutes(p.visitTime.value) == Some(r.value.0)
    ensures r.Some? ==> r.value.1 == r.value.0 + DurationOr(p, 60)
    ensures HasTime(p) && ClockMinutes(p.visitTime.value).Some? ==> r.Some?
  {
    if !HasTime(p) then None
    else match ClockMinutes(p.visitTime.value)
      case None => None
      case Some(start) => Some((start, start + DurationOr(p, 60)))
  }

  /** `startMinutes < pEnd && endMinutes > pStart`; every comparison with
      NaN is false. */
  predicate Overlap(a: DayPlace, b: DayPlace) {
    Span(a).Some? && Span(b).Some? && Span(a).value.0 < Span(b).value.1 && Span(a).value.1 > Span(b).value.0
  }

  lemma OverlapSymmetric(a: DayPlace, b: DayPlace)
    ensures Overlap(a, b) <==> Overlap(b, a)
  {
  }

  /** The places that get an entry: those with a visit time, in order. */
  function Timed(places: seq<DayPlace>): (r: seq<DayPlace>)
    ensures |r| <= |places|
    ensures forall k :: 0 <= k < |r| ==> HasTime(r[k])
    decreases |places|
  {
    if places == [] then []
    else
      var rest := Timed(places[..|places| - 1]);
      if HasTime(places[|places| - 1]) then rest + [places[|places| - 1]] else rest
  }

  /** A place gets an entry exactly when it has a visit time. */
  lemma {:induction false} TimedDropsOnlyUntimed(places: seq<DayPlace>, p: DayPlace)
    requires p in places
    ensures p in Timed(places) <==> HasTime(p)
    decreases |places|
  {
    var last := places[|places| - 1];
    var init := places[..|places| - 1];
    assert places == init + [last];
    if p != last {
      TimedDropsOnlyUntimed(init, p);
    } else if p in init {
      TimedDropsOnlyUntimed(init, p);
    }
  }

  /** Entries that overlap are in different lanes. */
  predicate LanesApart(out: seq<Laned>) {
    forall i, j :: 0 <= i < j < |out| && Overlap(out[i].place, out[j].place) ==> out[i].lane != out[j].lane
  }

  /** The lanes of the first `n` entries that overlap `p`. */
  function LanesBelow(out: seq<Laned>, p: DayPlace, n: nat): (lanes: set<nat>)
    requires n <= |out|
    ensures forall l :: l in lanes <==> exists i :: 0 <= i < n && Overlap(out[i].place, p) && out[i].lane == l
  {
    set i | 0 <= i < n && Overlap(out[i].place, p) :: out[i].lane
  }

  /** Each entry took the lowest lane free of earlier overlapping entries:
      every lane below it is taken by one of them. */
  predicate LanesPacked(out: seq<Laned>) {
    forall j, l :: 0 <= j < |out| && 0 <= l < out[j].lane ==> l in LanesBelow(out, out[j].place, j)
  }

  /** The lane count of an entry covers its own lane and the lane of every
      entry overlapping it. */
  predicate LanesCounted(out: seq<Laned>) {
    && (forall i :: 0 <= i < |out| ==> out[i].totalLanes > out[i].lane)
    && (forall i, j :: 0 <= i < |out| && 0 <= j < |out| && Overlap(out[i].place, out[j].place) ==> out[i].totalLanes > out[j].lane)
  }

  predicate GoodLanes(out: seq<Laned>) {
    LanesApart(out) && LanesPacked(out) && LanesCounted(out)
  }

  /** `lane` is not the lane of an earlier entry overlapping `p`. */
  predicate LaneFree(out: seq<Laned>, p: DayPlace, lane: nat) {
    forall i :: 0 <= i < |out| && Overlap(out[i].place, p) ==> out[i].lane != lane
  }

  /** One step of `assignLanesToPlaces` for a timed place `p`: the entries
      so far keep place and lane, the overlapping ones take the new count,
      and `p` is appended with the lowest free lane and the count
      `Math.max(lane + 1, ...overlapping counts)`. */
  predicate Placed(out: seq<Laned>, p: DayPlace, r: seq<Laned>) {
    && |r| == |out| + 1
    && r[|out|].place == p
    && (forall i :: 0 <= i < |out| ==> r[i].place == out[i].place && r[i].lane == out[i].lane)
    && (forall i :: 0 <= i < |out| && Overlap(out[i].place, p) ==> r[i].totalLanes == r[|out|].totalLanes)
    && (forall i :: 0 <= i < |out| && !Overlap(out[i].place, p) ==> r[i].totalLanes == out[i].totalLanes)
    && LaneFree(out, p, r[|out|].lane)
    && (forall l :: 0 <= l < r[|out|].lane ==> l in LanesBelow(out, p, |out|))
    && IsMaxCount(out, p, r[|out|].lane, r[|out|].totalLanes)
  }

  /** `total` is the largest of `lane + 1` and the counts of the entries
      overlapping `p`. */
  predicate IsMaxCount(out: seq<Laned>, p: DayPlace, lane: nat, total: nat) {
    && total >= lane + 1
    && (forall i :: 0 <= i < |out| && Overlap(out[i].place, p) ==> total >= out[i].totalLanes)
    && (total == lane + 1 || exists i :: 0 <= i < |out| && Overlap(out[i].place, p) && out[i].totalLanes == total)
  }

  /** If every number below `n` is in `s`, then `s` has at least `n`
      elements; it bounds the lane search. */
  lemma {:induction false} AllBelowIn(s: seq<nat>, n: nat)
    requires forall l :: 0 <= l < n ==> l in s
    ensures n <= |s|
    decreases n
  {
    if n > 0 {
      assert n - 1 in s;
      var k :| 0 <= k < |s| && s[k] == n - 1;
      var t := s[..k] + s[k + 1..];
      forall l | 0 <= l < n - 1
        ensures l in t
      {
        assert l in s;
        var m :| 0 <= m < |s| && s[m] == l;
        if m < k {
          assert t[m] == l;
        } else {
          assert t[m - 1] == l;
        }
      }
      AllBelowIn(t, n - 1);
    }
  }

  /** `overlappingPlaces.map(p => p.lane)`. */
  method UsedLanes(out: seq<Laned>, p: DayPlace) returns (used: seq<nat>)
    ensures forall l :: l in used <==> l in LanesBelow(out, p, |out|)
  {
    used := [];
    for k := 0 to |out|
      invariant forall l :: l in used <==> l in LanesBelow(out, p, k)
    {
      if Overlap(out[k].place, p) {
        used := used + [out[k].lane];
      }
    }
  }

  /** `let lane = 0; while (usedLanes.includes(lane)) lane++`: the lowest
      lane not in use. */
  method FreeLane(used: seq<nat>) returns (lane: nat)
    ensures lane !in used
    ensures forall l :: 0 <= l < lane ==> l in used
  {
    lane := 0;
    while lane in used
      invariant forall l :: 0 <= l < lane ==> l in used
      decreases |used| - lane
    {
      AllBelowIn(used, lane + 1);
      lane := lane + 1;
    }
  }

  /** `Math.max(lane + 1, ...overlappingPlaces.map(p => p.totalLanes))`. */
  method MaxCount(out: seq<Laned>, p: DayPlace, lane: nat) returns (total: nat)
    ensures IsMaxCount(out, p, lane, total)
  {
    total := lane + 1;
    for k := 0 to |out|
      invariant total >= lane + 1
      invariant forall i :: 0 <= i < k && Overlap(out[i].place, p) ==> total >= out[i].totalLanes
      invariant total == lane + 1 || exists i :: 0 <= i < k && Overlap(out[i].place, p) && out[i].totalLanes == total
    {
      if Overlap(out[k].place, p) && out[k].totalLanes > total {
        total := out[k].totalLanes;
      }
    }
  }

  /** `overlappingPlaces.forEach(p => { p.totalLanes = totalLanes })`. */
  method SetCounts(out: seq<Laned>, p: DayPlace, total: nat) returns (r: seq<Laned>)
    ensures |r| == |out|
    ensures forall i :: 0 <= i < |out| ==> r[i].place == out[i].place && r[i].lane == out[i].lane
    ensures forall i :: 0 <= i < |out| ==> r[i].totalLanes == if Overlap(out[i].place, p) then total else out[i].totalLanes
  {
    r := out;
    for k := 0 to |out|
      invariant |r| == |out|
      invariant forall i :: 0 <= i < |out| ==> r[i].place == out[i].place && r[i].lane == out[i].lane
      invariant forall i :: 0 <= i < |out| ==> r[i].totalLanes == if i < k && Overlap(out[i].place, p) then total else out[i].totalLanes
    {
      if Overlap(out[k].place, p) {
        r := r[k := Laned(r[k].place, r[k].lane, total)];
      }
    }
  }

  /** The body of the `forEach`, for a place with a visit time. */
  method PlaceOne(out: seq<Laned>, p: DayPlace) returns (r: seq<Laned>)
    ensures Placed(out, p, r)
  {
    var used := UsedLanes(out, p);
    var lane := FreeLane(used);
    var total := MaxCount(out, p, lane);
    r := SetCounts(out, p, total);
    r := r + [Laned(p, lane, total)];
  }

  lemma PlacedKeepsApart(out: seq<Laned>, p: DayPlace, r: seq<Laned>)
    requires LanesApart(out) && Placed(out, p, r)
    ensures LanesApart(r)
  {
    forall i, j | 0 <= i < j < |r| && Overlap(r[i].place, r[j].place)
      ensures r[i].lane != r[j].lane
    {
      if j < |out| {
        assert Overlap(out[i].place, out[j].place);
      }
    }
  }

  lemma PlacedKeepsPacked(out: seq<Laned>, p: DayPlace, r: seq<Laned>)
    requires LanesPacked(out) && Placed(out, p, r)
    ensures LanesPacked(r)
  {
    forall j, l | 0 <= j < |r| && 0 <= l < r[j].lane
      ensures l in LanesBelow(r, r[j].place, j)
    {
      if j < |out| {
        assert l in LanesBelow(out, out[j].place, j);
        var i :| 0 <= i < j && Overlap(out[i].place, out[j].place) && out[i].lane == l;
        assert Overlap(r[i].place, r[j].place) && r[i].lane == l;
      } else {
        assert l in LanesBelow(out, p, |out|);
        var i :| 0 <= i < |out| && Overlap(out[i].place, p) && out[i].lane == l;
        assert Overlap(r[i].place, r[j].place) && r[i].lane == l;
      }
    }
  }

  /** A count never goes down: it is only ever replaced by a maximum that
      includes it. */
  lemma PlacedRaisesCounts(out: seq<Laned>, p: DayPlace, r: seq<Laned>, i: nat)
    requires Placed(out, p, r) && i < |out|
    ensures r[i].totalLanes >= out[i].totalLanes
  {
    if Overlap(out[i].place, p) {
      assert r[i].totalLanes == r[|out|].totalLanes;
      assert IsMaxCount(out, p, r[|out|].lane, r[|out|].totalLanes);
    }
  }

  lemma PlacedKeepsCounted(out: seq<Laned>, p: DayPlace, r: seq<Laned>)
    requires LanesCounted(out) && Placed(out, p, r)
    ensures LanesCounted(r)
  {
    forall i | 0 <= i < |r|
      ensures r[i].totalLanes > r[i].lane
    {
      if i < |out| {
        PlacedRaisesCounts(out, p, r, i);
      }
    }
    forall i, j | 0 <= i < |r| && 0 <= j < |r| && Overlap(r[i].place, r[j].place)
      ensures r[i].totalLanes > r[j].lane
    {
      PlacedCountsPair(out, p, r, i, j);
    }
  }

  lemma PlacedCountsPair(out: seq<Laned>, p: DayPlace, r: seq<Laned>, i: nat, j: nat)
    requires LanesCounted(out) && Placed(out, p, r)
    requires i < |r| && j < |r| && Overlap(r[i].place, r[j].place)
    ensures r[i].totalLanes > r[j].lane
  {
    var n := |out|;
    if i < n && j < n {
      PlacedRaisesCounts(out, p, r, i);
      assert Overlap(out[i].place, out[j].place);
    } else if i < n {
      assert Overlap(out[i].place, p);
    } else if j < n {
      OverlapSymmetric(out[j].place, p);
      assert r[i].totalLanes >= out[j].totalLanes;
    }
  }

  /** `assignLanesToPlaces`: one entry per place with a visit time, in
      input order, in lanes that keep overlapping blocks apart, each lane
      the lowest one free, and lane counts that cover every overlapping
      block. */
  method AssignLanes(places: seq<DayPlace>) returns (out: seq<Laned>)
    ensures |out| == |Timed(places)|
    ensures forall k :: 0 <= k < |out| ==> out[k].place == Timed(places)[k]
    ensures LanesApart(out) && LanesPacked(out) && LanesCounted(out)
  {
    out := [];
    for i := 0 to |places|
      invariant Carries(out, Timed(places[..i]))
      invariant GoodLanes(out)
    {
      var p := places[i];
      if HasTime(p) {
        var r := PlaceOne(out, p);
        PlacedKeepsApart(out, p, r);
        PlacedKeepsPacked(out, p, r);
        PlacedKeepsCounted(out, p, r);
        CarriesPlaced(out, p, r, places, i);
        out := r;
      } else {
        CarriesSkipped(out, places, i);
      }
    }
    assert places[..|places|] == places;
  }

  /** The entries carry exactly the places of `t`, in order. */
  predicate Carries(out: seq<Laned>, t: seq<DayPlace>) {
    |out| == |t| && forall k :: 0 <= k < |out| ==> out[k].place == t[k]
  }

  /** A timed place, once placed, is carried after the earlier ones. */
  lemma CarriesPlaced(out: seq<Laned>, p: DayPlace, r: seq<Laned>, places: seq<DayPlace>, i: nat)
    requires i < |places| && p == places[i] && HasTime(p)
    requires Carries(out, Timed(places[..i])) && Placed(out, p, r)
    ensures Carries(r, Timed(places[..i + 1]))
  {
    assert places[..i + 1][..i] == places[..i];
  }

  /** A place without a time is not carried. */
  lemma CarriesSkipped(out: seq<Laned>, places: seq<DayPlace>, i: nat)
    requires i < |places| && !HasTime(places[i]) && Carries(out, Timed(places[..i]))
    ensures Carries(out, Timed(places[..i + 1]))
  {
    assert places[..i + 1][..i] == places[..i];
  }

  /** A place with no overlapping earlier entry goes to lane 0. */
  lemma AloneInLaneZero(out: seq<Laned>, p: DayPlace, r: seq<Laned>)
    requires Placed(out, p, r)
    requires forall i :: 0 <= i < |out| ==> !Overlap(out[i].place, p)
    ensures r[|out|].lane == 0 && r[|out|].totalLanes == 1
  {
    assert 0 !in LanesBelow(out, p, |out|);
  }
}
