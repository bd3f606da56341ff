/** Which travel segments an itinerary needs (`_calculate_segment_pairs` in
    backend/apps/events/views.py) and the set difference between needed and
    stored segments. Events are grouped by day in the order they are given;
    the days are visited in ascending order; within a day consecutive located
    events are linked, and day 1 additionally gets a leg from the trip's start
    when its first event is located. */
module SegmentPairs {
  import opened Common
  import opened EventModel

  /** A needed segment: `from` is absent for the leg from the trip start. */
  datatype Pair = Pair(from: Option<EventId>, to: EventId)

  /** Python's `sorted()` cannot compare a null day with an integer day. */
  datatype PairsError = UnorderableDays

  // ---------------------------------------------------------------------
  // Specification

  /** The start leg of a day: only day 1, only when its first event is
      located. */
  function StartPair(d: Option<int>, evs: seq<Event>): seq<Pair> {
    if d == Some(1) && |evs| > 0 && Located(evs[0]) then [Pair(None, evs[0].id)] else []
  }

  /** The links between consecutive located events among the first k events
      of a day. */
  function Links(evs: seq<Event>, k: nat): seq<Pair>
    requires k <= |evs|
    decreases k
  {
    if k < 2 then []
    else
      var link := if Located(evs[k - 2]) && Located(evs[k - 1]) then [Pair(Some(evs[k - 2].id), evs[k - 1].id)] else [];
      Links(evs, k - 1) + link
  }

  function DayPairs(d: Option<int>, evs: seq<Event>): seq<Pair> {
    StartPair(d, evs) + Links(evs, |evs|)
  }

  /** The pairs of the listed days, each day's events taken in the given order. */
  function PairsOverDays(events: seq<Event>, ds: seq<Option<int>>): seq<Pair>
    decreases |ds|
  {
    if ds == [] then []
    else PairsOverDays(events, ds[..|ds| - 1]) + DayPairs(ds[|ds| - 1], OfDay(events, ds[|ds| - 1]))
  }

  predicate HasNullDay(events: seq<Event>) {
    exists e :: e in events && e.day.None?
  }

  predicate HasIntDay(events: seq<Event>) {
    exists e :: e in events && e.day.Some?
  }

  /** A null day next to an integer day makes the day keys unsortable. */
  predicate Unorderable(events: seq<Event>) {
    HasNullDay(events) && HasIntDay(events)
  }

  predicate StrictlyIncreasing(s: seq<int>) {
    forall i, j :: 0 <= i < j < |s| ==> s[i] < s[j]
  }

  predicate DistinctDays(keys: seq<Option<int>>) {
    forall i, j :: 0 <= i < j < |keys| ==> keys[i] != keys[j]
  }

  /** The distinct days of the events in order of first appearance: the keys
      of the `events_by_day` dictionary. */
  function FirstDays(events: seq<Event>): (r: seq<Option<int>>)
    ensures DistinctDays(r)
    ensures forall d :: d in r <==> exists e :: e in events && e.day == d
    decreases |events|
  {
    if events == [] then []
    else
      var init := events[..|events| - 1];
      var last := events[|events| - 1];
      assert events == init + [last];
      var p := FirstDays(init);
      if last.day in p then p else p + [last.day]
  }

  // Sorting the day keys, as `sorted()` does

  function InsertInt(x: int, s: seq<int>): seq<int>
    decreases |s|
  {
    if s == [] then [x] else if s[0] <= x then [s[0]] + InsertInt(x, s[1..]) else [x] + s
  }

  function SortInts(xs: seq<int>): seq<int>
    decreases |xs|
  {
    if xs == [] then [] else InsertInt(xs[|xs| - 1], SortInts(xs[..|xs| - 1]))
  }

  lemma {:induction false} InsertIntProps(x: int, s: seq<int>)
    requires StrictlyIncreasing(s) && x !in s
    ensures StrictlyIncreasing(InsertInt(x, s))
    ensures forall y :: y in InsertInt(x, s) <==> y == x || y in s
    decreases |s|
  {
    if s != [] && s[0] <= x {
      InsertIntProps(x, s[1..]);
      var r := InsertInt(x, s[1..]);
      forall y | y in r
        ensures s[0] < y
      {
        if y != x {
          var k :| 0 <= k < |s[1..]| && s[1..][k] == y;
          assert s[k + 1] == y;
        } else {
          assert s[0] != x;
        }
      }
      var q := [s[0]] + r;
      forall i, j | 0 <= i < j < |q|
        ensures q[i] < q[j]
      {
        assert q[j] == r[j - 1];
        assert r[j - 1] in r;
        if i > 0 {
          assert q[i] == r[i - 1];
        }
      }
      assert s == [s[0]] + s[1..];
    }
  }

  predicate DistinctInts(xs: seq<int>) {
    forall i, j :: 0 <= i < j < |xs| ==> xs[i] != xs[j]
  }

  /** Sorting distinct integers gives them in strictly ascending order. */
  lemma {:induction false} SortIntsProps(xs: seq<int>)
    requires DistinctInts(xs)
    ensures StrictlyIncreasing(SortInts(xs))
    ensures forall y :: y in SortInts(xs) <==> y in xs
    decreases |xs|
  {
    if xs != [] {
      var p := xs[..|xs| - 1];
      SortIntsProps(p);
      assert xs[|xs| - 1] !in p;
      InsertIntProps(xs[|xs| - 1], SortInts(p));
      assert xs == p + [xs[|xs| - 1]];
    }
  }

  function SomeAll(xs: seq<int>): (r: seq<Option<int>>)
    ensures |r| == |xs| && forall i :: 0 <= i < |xs| ==> r[i] == Some(xs[i])
  {
    seq(|xs|, i requires 0 <= i < |xs| => Some(xs[i]))
  }

  function Unwrap(keys: seq<Option<int>>): (r: seq<int>)
    requires forall i :: 0 <= i < |keys| ==> keys[i].Some?
    ensures |r| == |keys| && forall i :: 0 <= i < |keys| ==> r[i] == keys[i].value
  {
    seq(|keys|, i requires 0 <= i < |keys| => keys[i].value)
  }

  /** `sorted()` over distinct day keys: it fails as soon as a null key has to
      be compared with an integer key, which happens whenever both occur. */
  function SortDays(keys: seq<Option<int>>): Result<seq<Option<int>>, PairsError> {
    if None in keys && |keys| >= 2 then Err(UnorderableDays)
    else if None in keys then Ok(keys)
    else Ok(SomeAll(SortInts(Unwrap(keys))))
  }

  /** The needed segment pairs of an itinerary, in the order they are
      emitted, or the error raised when the days cannot be sorted. */
  function RequiredPairs(events: seq<Event>): Result<seq<Pair>, PairsError> {
    match SortDays(FirstDays(events))
    case Err(e) => Err(e)
    case Ok(ds) => Ok(PairsOverDays(events, ds))
  }

  /** The sorted day keys of an itinerary: the event days, each once,
      ascending when they are integers. */
  ghost predicate DaysInOrder(events: seq<Event>, ds: seq<Option<int>>) {
    DistinctDays(ds) &&
    (forall d :: d in ds <==> exists e :: e in events && e.day == d) &&
    (forall i, j :: 0 <= i < j < |ds| ==> ds[i].Some? && ds[j].Some? && ds[i].value < ds[j].value)
  }

  /** The day keys sort unless a null day is mixed with integer days, and then
      they are the event days, each once, ascending (a lone null day stays
      itself). */
  lemma SortedDaysProps(events: seq<Event>)
    ensures SortDays(FirstDays(events)).Err? <==> Unorderable(events)
    ensures RequiredPairs(events).Err? <==> Unorderable(events)
    ensures SortDays(FirstDays(events)).Ok? ==> DaysInOrder(events, SortDays(FirstDays(events)).value)
  {
    if None in FirstDays(events) {
      NullDayKeys(events);
    } else {
      IntDayKeys(events);
    }
  }

  lemma NullDayKeys(events: seq<Event>)
    requires None in FirstDays(events)
    ensures SortDays(FirstDays(events)).Err? <==> Unorderable(events)
    ensures SortDays(FirstDays(events)).Ok? ==> DaysInOrder(events, SortDays(FirstDays(events)).value)
  {
    var keys := FirstDays(events);
    var e0 :| e0 in events && e0.day.None?;
    if |keys| >= 2 {
      var j :| 0 <= j < |keys| && keys[j] == None;
      var other := if j == 0 then keys[1] else keys[0];
      assert other in keys && other != None;
      var e1 :| e1 in events && e1.day == other;
      assert Unorderable(events);
    } else {
      assert keys == [None];
      forall e | e in events
        ensures e.day.None?
      {
        assert e.day in keys;
      }
      assert !HasIntDay(events);
    }
  }

  lemma IntDayKeys(events: seq<Event>)
    requires None !in FirstDays(events)
    ensures SortDays(FirstDays(events)).Ok? && !Unorderable(events)
    ensures DaysInOrder(events, SortDays(FirstDays(events)).value)
  {
    var keys := FirstDays(events);
    var xs := Unwrap(keys);
    assert DistinctInts(xs) by {
      forall i, j | 0 <= i < j < |xs|
        ensures xs[i] != xs[j]
      {
        assert keys[i] != keys[j];
      }
    }
    SortIntsProps(xs);
    forall e | e in events
      ensures e.day.Some?
    {
      assert e.day in keys;
    }
    var ds := SomeAll(SortInts(xs));
    assert SortDays(keys) == Ok(ds);
    forall d
      ensures d in ds <==> exists e :: e in events && e.day == d
    {
      if d in ds {
        var i :| 0 <= i < |ds| && ds[i] == d;
        assert SortInts(xs)[i] in xs;
        var k :| 0 <= k < |xs| && xs[k] == SortInts(xs)[i];
        assert keys[k] == d;
        assert keys[k] in keys;
      }
      if exists e :: e in events && e.day == d {
        var e :| e in events && e.day == d;
        assert d in keys;
        var k :| 0 <= k < |keys| && keys[k] == d;
        assert xs[k] in SortInts(xs);
        var i :| 0 <= i < |SortInts(xs)| && SortInts(xs)[i] == xs[k];
        assert ds[i] == d;
      }
    }
  }

  // ---------------------------------------------------------------------
  // The method

  lemma FirstDaysSnoc(s: seq<Event>, e: Event)
    ensures FirstDays(s + [e]) == if e.day in FirstDays(s) then FirstDays(s) else FirstDays(s) + [e.day]
  {
    assert (s + [e])[..|s + [e]| - 1] == s;
  }

  lemma OfDaySnoc(s: seq<Event>, e: Event, d: Option<int>)
    ensures OfDay(s + [e], d) == if e.day == d then OfDay(s, d) + [e] else OfDay(s, d)
  {
    assert (s + [e])[..|s + [e]| - 1] == s;
  }

  lemma PairsOverDaysSnoc(events: seq<Event>, ds: seq<Option<int>>, k: nat)
    requires k < |ds|
    ensures PairsOverDays(events, ds[..k + 1]) == PairsOverDays(events, ds[..k]) + DayPairs(ds[k], OfDay(events, ds[k]))
  {
    assert ds[..k + 1][..k] == ds[..k];
  }

  lemma AppendAssoc(a: seq<Pair>, b: seq<Pair>, c: seq<Pair>)
    ensures (a + b) + c == a + (b + c)
  {
  }

  /** The link a day contributes between its i-th and (i+1)-th events. */
  function LinkAt(evs: seq<Event>, i: nat): seq<Pair>
    requires i + 1 < |evs|
  {
    if Located(evs[i]) && Located(evs[i + 1]) then [Pair(Some(evs[i].id), evs[i + 1].id)] else []
  }

  lemma LinkStep(b: seq<Pair>, d: Option<int>, evs: seq<Event>, i: nat)
    requires i + 1 < |evs|
    ensures b + StartPair(d, evs) + Links(evs, i + 2) == b + StartPair(d, evs) + Links(evs, i + 1) + LinkAt(evs, i)
  {
    assert Links(evs, i + 2) == Links(evs, i + 1) + LinkAt(evs, i);
    AppendAssoc(b + StartPair(d, evs), Links(evs, i + 1), LinkAt(evs, i));
  }

  /** The dictionary of day groups and its keys are what FirstDays and OfDay
      say of the events seen so far: one more event extends its day's group,
      or opens a new group at the end of the keys. */
  ghost predicate GroupedBy(byDay: map<Option<int>, seq<Event>>, keys: seq<Option<int>>, s: seq<Event>) {
    && keys == FirstDays(s)
    && (forall d :: d in keys <==> d in byDay)
    && (forall d :: d in byDay ==> byDay[d] == OfDay(s, d))
  }

  lemma GroupStep(byDay: map<Option<int>, seq<Event>>, keys: seq<Option<int>>, events: seq<Event>, i: nat)
    requires i < |events| && GroupedBy(byDay, keys, events[..i])
    ensures events[i].day in byDay ==>
      GroupedBy(byDay[events[i].day := byDay[events[i].day] + [events[i]]], keys, events[..i + 1])
    ensures events[i].day !in byDay ==>
      GroupedBy(byDay[events[i].day := [] + [events[i]]], keys + [events[i].day], events[..i + 1])
  {
    assert events[..i + 1] == events[..i] + [events[i]];
    if events[i].day in byDay {
      GroupStepSeen(byDay, keys, events[..i], events[i]);
    } else {
      GroupStepNew(byDay, keys, events[..i], events[i]);
    }
  }

  lemma GroupStepSeen(byDay: map<Option<int>, seq<Event>>, keys: seq<Option<int>>, s: seq<Event>, e: Event)
    requires GroupedBy(byDay, keys, s) && e.day in byDay
    ensures GroupedBy(byDay[e.day := byDay[e.day] + [e]], keys, s + [e])
  {
    assert FirstDays(s + [e]) == keys by {
      FirstDaysSnoc(s, e);
      assert e.day in keys;
    }
    GroupStepGroups(byDay, byDay[e.day := byDay[e.day] + [e]], s, e);
  }

  lemma GroupStepNew(byDay: map<Option<int>, seq<Event>>, keys: seq<Option<int>>, s: seq<Event>, e: Event)
    requires GroupedBy(byDay, keys, s) && e.day !in byDay
    ensures GroupedBy(byDay[e.day := [] + [e]], keys + [e.day], s + [e])
  {
    FirstDaysSnoc(s, e);
    GroupStepGroups(byDay, byDay[e.day := [] + [e]], s, e);
  }

  lemma GroupStepGroups(byDay: map<Option<int>, seq<Event>>, m: map<Option<int>, seq<Event>>, s: seq<Event>, e: Event)
    requires forall d :: d in byDay ==> byDay[d] == OfDay(s, d)
    requires e.day !in byDay ==> forall x :: x in s ==> x.day != e.day
    requires m == byDay[e.day := (if e.day in byDay then byDay[e.day] else []) + [e]]
    ensures forall d :: d in m ==> m[d] == OfDay(s + [e], d)
  {
    forall d | d in m
      ensures m[d] == OfDay(s + [e], d)
    {
      OfDaySnoc(s, e, d);
      if d == e.day && e.day !in byDay {
        OfDayAbsent(s, e.day);
      }
    }
  }

  /** The grouping loop of `_calculate_segment_pairs`: the `events_by_day`
      dictionary and its keys in insertion order. */
  method GroupByDay(events: seq<Event>) returns (byDay: map<Option<int>, seq<Event>>, keys: seq<Option<int>>)
    ensures keys == FirstDays(events)
    ensures forall d :: d in keys <==> d in byDay
    ensures forall d :: d in byDay ==> byDay[d] == OfDay(events, d)
  {
    byDay := map[];
    keys := [];
    for i := 0 to |events|
      invariant GroupedBy(byDay, keys, events[..i])
    {
      var day := events[i].day;
      GroupStep(byDay, keys, events, i);
      if day !in byDay {
        byDay := byDay[day := []];
        keys := keys + [day];
      }
      byDay := byDay[day := byDay[day] + [events[i]]];
    }
    assert events[..|events|] == events;
  }

  /** The body of the per-day loop of `_calculate_segment_pairs`: appends a
      day's start leg (day 1 only) and the links between its consecutive
      located events. */
  method AppendDayPairs(acc: seq<Pair>, day: Option<int>, dayEvents: seq<Event>) returns (pairs: seq<Pair>)
    ensures pairs == acc + DayPairs(day, dayEvents)
  {
    pairs := acc;
    if |dayEvents| == 0 {
      return;
    }
    if day == Some(1) && Located(dayEvents[0]) {
      pairs := pairs + [Pair(None, dayEvents[0].id)];
    }
    assert Links(dayEvents, 1) == [];
    assert pairs == acc + StartPair(day, dayEvents) + Links(dayEvents, 1);
    for i := 0 to |dayEvents| - 1
      invariant pairs == acc + StartPair(day, dayEvents) + Links(dayEvents, i + 1)
    {
      LinkStep(acc, day, dayEvents, i);
      if Located(dayEvents[i]) && Located(dayEvents[i + 1]) {
        pairs := pairs + [Pair(Some(dayEvents[i].id), dayEvents[i + 1].id)];
      } else {
        assert pairs + LinkAt(dayEvents, i) == pairs;
      }
    }
    AppendAssoc(acc, StartPair(day, dayEvents), Links(dayEvents, |dayEvents|));
  }

  /** `_calculate_segment_pairs(events)`: groups the events by day in the given
      order, sorts the day keys and emits each day's pairs. */
  method CalculateSegmentPairs(events: seq<Event>) returns (r: Result<seq<Pair>, PairsError>)
    ensures r == RequiredPairs(events)
  {
    if |events| == 0 {
      return Ok([]);
    }
    var byDay, keys := GroupByDay(events);
    var sortedDays := SortDays(keys);
    if sortedDays.Err? {
      return Err(UnorderableDays);
    }
    var ds := sortedDays.value;
    assert forall d :: d in ds ==> d in byDay && byDay[d] == OfDay(events, d) by {
      SortedDaysProps(events);
    }
    var pairs: seq<Pair> := [];
    for k := 0 to |ds|
      invariant pairs == PairsOverDays(events, ds[..k])
    {
      PairsOverDaysSnoc(events, ds, k);
      pairs := AppendDayPairs(pairs, ds[k], byDay[ds[k]]);
    }
    assert ds[..|ds|] == ds;
    return Ok(pairs);
  }

  // ---------------------------------------------------------------------
  // What the needed pairs are

  /** `p` is the start leg: the first event of day 1, which is located. */
  predicate IsStartPair(events: seq<Event>, p: Pair) {
    var d1 := OfDay(events, Some(1));
    |d1| > 0 && Located(d1[0]) && p == Pair(None, d1[0].id)
  }

  /** `p` links two consecutive events of one day, both located. */
  predicate IsLink(events: seq<Event>, d: Option<int>, i: nat, p: Pair) {
    var evs := OfDay(events, d);
    i + 1 < |evs| && Located(evs[i]) && Located(evs[i + 1])
    && p == Pair(Some(evs[i].id), evs[i + 1].id)
  }

  ghost predicate IsLinkPair(events: seq<Event>, p: Pair) {
    exists d, i: nat :: IsLink(events, d, i, p)
  }

  lemma {:induction false} LinksMember(evs: seq<Event>, k: nat, p: Pair)
    requires k <= |evs|
    ensures p in Links(evs, k) <==>
      exists i: nat :: i + 1 < k && Located(evs[i]) && Located(evs[i + 1])
                       && p == Pair(Some(evs[i].id), evs[i + 1].id)
    decreases k
  {
    if k >= 2 {
      LinksMember(evs, k - 1, p);
    }
  }

  lemma {:induction false} PairsOverDaysMember(events: seq<Event>, ds: seq<Option<int>>, p: Pair)
    ensures p in PairsOverDays(events, ds) <==>
      exists k :: 0 <= k < |ds| && p in DayPairs(ds[k], OfDay(events, ds[k]))
    decreases |ds|
  {
    if ds != [] {
      var init := ds[..|ds| - 1];
      PairsOverDaysMember(events, init, p);
      if exists k :: 0 <= k < |ds| && p in DayPairs(ds[k], OfDay(events, ds[k])) {
        var k :| 0 <= k < |ds| && p in DayPairs(ds[k], OfDay(events, ds[k]));
        if k < |ds| - 1 {
          assert init[k] == ds[k];
        }
      }
      if p in PairsOverDays(events, init) {
        var k :| 0 <= k < |init| && p in DayPairs(init[k], OfDay(events, init[k]));
        assert ds[k] == init[k];
      }
    }
  }

  /** The needed pairs are exactly the start leg of day 1 (when its first
      event is located) and the links between consecutive located events of
      one day. */
  lemma RequiredPairsExactly(events: seq<Event>, p: Pair)
    requires RequiredPairs(events).Ok?
    ensures p in RequiredPairs(events).value <==> IsStartPair(events, p) || IsLinkPair(events, p)
  {
    if p in RequiredPairs(events).value {
      RequiredPairsSound(events, p);
    }
    if IsStartPair(events, p) {
      StartPairRequired(events, p);
    }
    if IsLinkPair(events, p) {
      var d, i: nat :| IsLink(events, d, i, p);
      LinkRequired(events, d, i, p);
    }
  }

  /** The only days whose pairs are emitted are the days present, each once. */
  lemma EmittedDay(events: seq<Event>, d: Option<int>) returns (k: nat)
    requires RequiredPairs(events).Ok?
    requires exists e :: e in events && e.day == d
    ensures k < |SortDays(FirstDays(events)).value| && SortDays(FirstDays(events)).value[k] == d
  {
    SortedDaysProps(events);
    var ds := SortDays(FirstDays(events)).value;
    assert d in ds;
    k :| 0 <= k < |ds| && ds[k] == d;
  }

  lemma RequiredPairsSound(events: seq<Event>, p: Pair)
    requires RequiredPairs(events).Ok? && p in RequiredPairs(events).value
    ensures IsStartPair(events, p) || IsLinkPair(events, p)
  {
    var ds := SortDays(FirstDays(events)).value;
    PairsOverDaysMember(events, ds, p);
    var k :| 0 <= k < |ds| && p in DayPairs(ds[k], OfDay(events, ds[k]));
    var evs := OfDay(events, ds[k]);
    if p !in StartPair(ds[k], evs) {
      LinksMember(evs, |evs|, p);
      var i: nat :| i + 1 < |evs| && Located(evs[i]) && Located(evs[i + 1])
                    && p == Pair(Some(evs[i].id), evs[i + 1].id);
      assert IsLink(events, ds[k], i, p);
    }
  }

  lemma StartPairRequired(events: seq<Event>, p: Pair)
    requires RequiredPairs(events).Ok? && IsStartPair(events, p)
    ensures p in RequiredPairs(events).value
  {
    var ds := SortDays(FirstDays(events)).value;
    var d1 := OfDay(events, Some(1));
    assert d1[0] in d1;
    var k := EmittedDay(events, Some(1));
    assert p in DayPairs(ds[k], OfDay(events, ds[k]));
    PairsOverDaysMember(events, ds, p);
  }

  lemma LinkRequired(events: seq<Event>, d: Option<int>, i: nat, p: Pair)
    requires RequiredPairs(events).Ok? && IsLink(events, d, i, p)
    ensures p in RequiredPairs(events).value
  {
    var ds := SortDays(FirstDays(events)).value;
    var evs := OfDay(events, d);
    assert evs[i] in evs;
    var k := EmittedDay(events, d);
    LinksMember(evs, |evs|, p);
    assert p in DayPairs(ds[k], OfDay(events, ds[k]));
    PairsOverDaysMember(events, ds, p);
  }

  /** A needed pair never joins events of two different days, and both of its
      events are located. */
  lemma PairsStayWithinDay(events: seq<Event>, p: Pair, a: Event, b: Event)
    requires UniqueIds(events)
    requires RequiredPairs(events).Ok? && p in RequiredPairs(events).value
    requires a in events && b in events && p.from == Some(a.id) && p.to == b.id
    ensures a.day == b.day && Located(a) && Located(b)
  {
    RequiredPairsExactly(events, p);
    var d, i: nat :| IsLink(events, d, i, p);
    var evs := OfDay(events, d);
    assert evs[i] in events && evs[i + 1] in events;
    var ia :| 0 <= ia < |events| && events[ia] == a;
    var ib :| 0 <= ib < |events| && events[ib] == b;
    var ja :| 0 <= ja < |events| && events[ja] == evs[i];
    var jb :| 0 <= jb < |events| && events[jb] == evs[i + 1];
    assert ia == ja && ib == jb;
  }

  /** An unlocated event between two located events of a day is not bridged:
      the two are not linked. */
  lemma UnlocatedEventBreaksChain(a: Event, x: Event, b: Event)
    requires a.day == x.day == b.day && a.day.Some?
    requires Located(a) && !Located(x) && Located(b)
    ensures RequiredPairs([a, x, b]).Ok?
    ensures Pair(Some(a.id), b.id) !in RequiredPairs([a, x, b]).value
  {
    var events := [a, x, b];
    assert !HasNullDay(events);
    SortedDaysProps(events);
    var p := Pair(Some(a.id), b.id);
    RequiredPairsExactly(events, p);
    forall d, i: nat
      ensures !IsLink(events, d, i, p)
    {
      if d == a.day {
        OneDayOfThree(a, x, b);
      } else {
        OfDayAbsent(events, d);
      }
    }
  }

  lemma OneDayOfThree(a: Event, x: Event, b: Event)
    requires a.day == x.day == b.day
    ensures OfDay([a, x, b], a.day) == [a, x, b]
  {
    var events := [a, x, b];
    assert events[..2] == [a, x] && events[..2][..1] == [a] && events[..2][..1][..0] == [];
  }

  /** When the first event of day 1 is unlocated there is no start leg, even
      if a later event of day 1 is located. */
  lemma UnlocatedFirstEventDropsStart(x: Event, a: Event)
    requires x.day == a.day == Some(1)
    requires !Located(x) && Located(a)
    ensures RequiredPairs([x, a]).Ok?
    ensures forall p :: p in RequiredPairs([x, a]).value ==> p.from.Some?
  {
    var events := [x, a];
    assert !HasNullDay(events);
    SortedDaysProps(events);
    assert OfDay(events, Some(1)) == [x, a] by {
      assert events[..1] == [x] && events[..1][..0] == [];
    }
    forall p | p in RequiredPairs(events).value
      ensures p.from.Some?
    {
      RequiredPairsExactly(events, p);
      assert !IsStartPair(events, p);
      var d, i: nat :| IsLink(events, d, i, p);
    }
  }

  // ---------------------------------------------------------------------
  // Diff against the stored segments

  function PairSet(ps: seq<Pair>): (r: set<Pair>)
    ensures forall p :: p in r <==> p in ps
  {
    set p | p in ps
  }

  /** Stored pairs that are no longer needed. */
  function ToDelete(existing: set<Pair>, needed: set<Pair>): (r: set<Pair>)
    ensures forall p :: p in r <==> p in existing && p !in needed
  {
    existing - needed
  }

  /** Needed pairs not stored yet. */
  function ToCreate(existing: set<Pair>, needed: set<Pair>): (r: set<Pair>)
    ensures forall p :: p in r <==> p in needed && p !in existing
  {
    needed - existing
  }

  /** Pairs that are both stored and needed, left as they are. */
  function Reused(existing: set<Pair>, needed: set<Pair>): (r: set<Pair>)
    ensures forall p :: p in r <==> p in needed && p in existing
  {
    needed * existing
  }

  /** The three sets split both sides, and applying the diff to the stored
      pairs gives the needed pairs. */
  lemma DiffPartition(existing: set<Pair>, needed: set<Pair>)
    ensures existing == ToDelete(existing, needed) + Reused(existing, needed)
    ensures needed == ToCreate(existing, needed) + Reused(existing, needed)
    ensures ToDelete(existing, needed) * needed == {} && ToCreate(existing, needed) * existing == {}
    ensures (existing - ToDelete(existing, needed)) + ToCreate(existing, needed) == needed
  {
  }

  /** Running the diff again on the stored pairs that resulted (the old ones
      minus the deleted ones plus the created ones that succeeded) deletes
      nothing and retries only the pairs whose creation failed. */
  lemma SecondDiff(existing: set<Pair>, needed: set<Pair>, succeeded: set<Pair>)
    requires succeeded <= ToCreate(existing, needed)
    ensures var after := (existing - ToDelete(existing, needed)) + succeeded;
      ToDelete(after, needed) == {} &&
      ToCreate(after, needed) == ToCreate(existing, needed) - succeeded &&
      (succeeded == ToCreate(existing, needed) ==> ToCreate(after, needed) == {} && after == needed)
  {
  }
}
