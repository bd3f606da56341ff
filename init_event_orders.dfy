/** The `init_event_orders` management command
    (backend/apps/events/management/commands/init_event_orders.py): for every
    trip, global_order becomes each event's rank in the (day, order) listing,
    and for every non-zero day, day_order becomes 10, 20, ... in `order`
    order; the command reports how many day_order values it wrote. */
module InitEventOrders {
  import opened Common
  import opened EventModel
  import opened ItineraryRules
  import opened Itinerary

  // ---------------------------------------------------------------------
  // The (day, order) listing

  /** `order_by('day', 'order')`, with a NULL day after every integer day. */
  predicate ListingLe(a: Event, b: Event) {
    if a.day == b.day then a.order <= b.order else DayLe(a.day, b.day)
  }

  lemma ListingLeTotal(a: Event, b: Event)
    ensures ListingLe(a, b) || ListingLe(b, a)
  {
  }

  lemma ListingLeTransitive(a: Event, b: Event, c: Event)
    requires ListingLe(a, b) && ListingLe(b, c)
    ensures ListingLe(a, c)
  {
  }

  predicate SortedByListing(s: seq<Event>) {
    forall i, j :: 0 <= i < j < |s| ==> ListingLe(s[i], s[j])
  }

  /** Inserts after every element not greater than `e`: rows of equal key
      keep their table order. */
  function InsertByListing(e: Event, s: seq<Event>): (r: seq<Event>)
    ensures |r| == |s| + 1
    decreases |s|
  {
    if s == [] then [e]
    else if ListingLe(s[0], e) then [s[0]] + InsertByListing(e, s[1..])
    else [e] + s
  }

  /** The rows in the listing order. Within one day this is
      `order_by('order')`. */
  function SortByListing(s: seq<Event>): (r: seq<Event>)
    ensures |r| == |s|
    decreases |s|
  {
    if s == [] then [] else InsertByListing(s[|s| - 1], SortByListing(s[..|s| - 1]))
  }

  lemma {:induction false} InsertByListingElements(e: Event, s: seq<Event>)
    ensures multiset(InsertByListing(e, s)) == multiset(s) + multiset{e}
    ensures forall x :: x in InsertByListing(e, s) <==> x == e || x in s
    decreases |s|
  {
    if s != [] && ListingLe(s[0], e) {
      InsertByListingElements(e, s[1..]);
      assert s == [s[0]] + s[1..];
    }
  }

  lemma {:induction false} InsertByListingSorted(e: Event, s: seq<Event>)
    requires SortedByListing(s)
    ensures SortedByListing(InsertByListing(e, s))
    decreases |s|
  {
    if s != [] && ListingLe(s[0], e) {
      var t := s[1..];
      InsertByListingSorted(e, t);
      InsertByListingElements(e, t);
      var r := InsertByListing(e, t);
      forall x | x in r
        ensures ListingLe(s[0], x)
      {
        if x != e {
          var k :| 0 <= k < |t| && t[k] == x;
          assert s[k + 1] == x;
        }
      }
      var q := [s[0]] + r;
      forall i, j | 0 <= i < j < |q|
        ensures ListingLe(q[i], q[j])
      {
        assert q[j] == r[j - 1];
        assert r[j - 1] in r;
        if i > 0 {
          assert q[i] == r[i - 1];
        }
      }
    } else if s != [] {
      var q := [e] + s;
      forall i, j | 0 <= i < j < |q|
        ensures ListingLe(q[i], q[j])
      {
        assert q[j] == s[j - 1];
        if i == 0 {
          ListingLeTotal(s[0], e);
          if j - 1 > 0 {
            ListingLeTransitive(e, s[0], s[j - 1]);
          }
        } else {
          assert q[i] == s[i - 1];
        }
      }
    }
  }

  lemma {:induction false} InsertByListingMultiset(e: Event, s: seq<Event>)
    ensures multiset(InsertByListing(e, s)) == multiset(s) + multiset{e}
    decreases |s|
  {
    if s != [] && ListingLe(s[0], e) {
      InsertByListingMultiset(e, s[1..]);
      assert s == [s[0]] + s[1..];
    }
  }

  /** The listing is sorted by (day, order) and holds the same rows. */
  lemma SortByListingProps(s: seq<Event>)
    ensures SortedByListing(SortByListing(s))
    ensures multiset(SortByListing(s)) == multiset(s)
  {
    SortByListingSorted(s);
    SortByListingMultiset(s);
  }

  lemma {:induction false} SortByListingSorted(s: seq<Event>)
    ensures SortedByListing(SortByListing(s))
    decreases |s|
  {
    if s != [] {
      SortByListingSorted(s[..|s| - 1]);
      InsertByListingSorted(s[|s| - 1], SortByListing(s[..|s| - 1]));
    }
  }

  lemma {:induction false} SortByListingMultiset(s: seq<Event>)
    ensures multiset(SortByListing(s)) == multiset(s)
    decreases |s|
  {
    if s != [] {
      var p := s[..|s| - 1];
      var e := s[|s| - 1];
      SortByListingMultiset(p);
      SortByListingSnoc(s, p, e);
    }
  }

  /** Inserting the last row into the sorted front keeps the rows. */
  lemma SortByListingSnoc(s: seq<Event>, p: seq<Event>, e: Event)
    requires s != [] && p == s[..|s| - 1] && e == s[|s| - 1]
    requires multiset(SortByListing(p)) == multiset(p)
    ensures multiset(SortByListing(s)) == multiset(s)
  {
    InsertByListingMultiset(e, SortByListing(p));
    assert SortByListing(s) == InsertByListing(e, SortByListing(p));
    assert s == p + [e];
  }

  lemma SortByListingMembers(s: seq<Event>)
    ensures forall x :: x in SortByListing(s) <==> x in s
  {
    SortByListingMultiset(s);
    assert forall x :: x in SortByListing(s) <==> x in multiset(SortByListing(s));
    assert forall x :: x in s <==> x in multiset(s);
  }

  lemma {:induction false} InsertByListingUnique(e: Event, s: seq<Event>)
    requires UniqueIds(s)
    requires forall x :: x in s ==> x.id != e.id
    ensures UniqueIds(InsertByListing(e, s))
    decreases |s|
  {
    if s != [] && ListingLe(s[0], e) {
      InsertByListingUnique(e, s[1..]);
      InsertByListingElements(e, s[1..]);
      var r := InsertByListing(e, s[1..]);
      var q := [s[0]] + r;
      forall i, j | 0 <= i < j < |q|
        ensures q[i].id != q[j].id
      {
        assert q[j] == r[j - 1];
        assert r[j - 1] in r;
        if i > 0 {
          assert q[i] == r[i - 1];
        } else if r[j - 1] != e {
          var k :| 0 <= k < |s[1..]| && s[1..][k] == r[j - 1];
          assert s[k + 1] == r[j - 1];
        }
      }
    }
  }

  lemma {:induction false} SortByListingUnique(s: seq<Event>)
    requires UniqueIds(s)
    ensures UniqueIds(SortByListing(s))
    decreases |s|
  {
    if s != [] {
      var p := s[..|s| - 1];
      var e := s[|s| - 1];
      SortByListingUnique(p);
      SortByListingMembers(p);
      forall x | x in SortByListing(p)
        ensures x.id != e.id
      {
        var k :| 0 <= k < |p| && p[k] == x;
      }
      InsertByListingUnique(e, SortByListing(p));
    }
  }

  /** Two tables with the same id, day and order at every position. */
  predicate SameListingKeys(a: seq<Event>, b: seq<Event>) {
    |a| == |b| &&
    forall i :: 0 <= i < |a| ==> a[i].id == b[i].id && a[i].day == b[i].day && a[i].order == b[i].order
  }

  lemma SameListingKeysCons(x: Event, y: Event, a: seq<Event>, b: seq<Event>)
    requires SameListingKeys(a, b)
    requires x.id == y.id && x.day == y.day && x.order == y.order
    ensures SameListingKeys([x] + a, [y] + b)
  {
    forall i | 0 < i < |a| + 1
      ensures ([x] + a)[i] == a[i - 1] && ([y] + b)[i] == b[i - 1]
    {
    }
  }

  lemma {:induction false} InsertByListingSameKeys(e: Event, f: Event, a: seq<Event>, b: seq<Event>)
    requires SameListingKeys(a, b)
    requires e.id == f.id && e.day == f.day && e.order == f.order
    ensures SameListingKeys(InsertByListing(e, a), InsertByListing(f, b))
    decreases |a|
  {
    if a == [] {
      SameListingKeysCons(e, f, a, b);
    } else if ListingLe(a[0], e) {
      assert ListingLe(b[0], f);
      assert SameListingKeys(a[1..], b[1..]);
      InsertByListingSameKeys(e, f, a[1..], b[1..]);
      SameListingKeysCons(a[0], b[0], InsertByListing(e, a[1..]), InsertByListing(f, b[1..]));
    } else {
      assert !ListingLe(b[0], f);
      SameListingKeysCons(e, f, a, b);
    }
  }

  /** The listing sees nothing but id, day and order. */
  lemma {:induction false} SortByListingSameKeys(a: seq<Event>, b: seq<Event>)
    requires SameListingKeys(a, b)
    ensures SameListingKeys(SortByListing(a), SortByListing(b))
    decreases |a|
  {
    if a != [] {
      assert SameListingKeys(a[..|a| - 1], b[..|b| - 1]);
      SortByListingSameKeys(a[..|a| - 1], b[..|b| - 1]);
      InsertByListingSameKeys(a[|a| - 1], b[|b| - 1], SortByListing(a[..|a| - 1]), SortByListing(b[..|b| - 1]));
    }
  }

  lemma {:induction false} OfDaySameKeys(a: seq<Event>, b: seq<Event>, d: Option<int>)
    requires SameListingKeys(a, b)
    ensures SameListingKeys(OfDay(a, d), OfDay(b, d))
    decreases |a|
  {
    if a != [] {
      var a', b' := a[..|a| - 1], b[..|b| - 1];
      assert SameListingKeys(a', b');
      OfDaySameKeys(a', b', d);
      if a[|a| - 1].day == d {
        SameListingKeysSnoc(OfDay(a', d), OfDay(b', d), a[|a| - 1], b[|b| - 1]);
      }
    }
  }

  lemma SameListingKeysSnoc(a: seq<Event>, b: seq<Event>, x: Event, y: Event)
    requires SameListingKeys(a, b)
    requires x.id == y.id && x.day == y.day && x.order == y.order
    ensures SameListingKeys(a + [x], b + [y])
  {
  }

  /** The day's listing of two such tables ranks every id alike. */
  lemma DayListingSameRanks(a: seq<Event>, b: seq<Event>, d: Option<int>, id: EventId)
    requires SameListingKeys(a, b)
    ensures IndexOfId(SortByListing(OfDay(a, d)), id) == IndexOfId(SortByListing(OfDay(b, d)), id)
  {
    OfDaySameKeys(a, b, d);
    SortByListingSameKeys(OfDay(a, d), OfDay(b, d));
    IndexOfIdSameIds(SortByListing(OfDay(a, d)), SortByListing(OfDay(b, d)), id);
  }

  // ---------------------------------------------------------------------
  // What the back-fill writes

  /** `if e.day`: a NULL day and day 0 are both skipped. */
  predicate TruthyDay(e: Event) {
    e.day.Some? && e.day.value != 0
  }

  /** 1-based position of `id` in `s`, 0 when absent. */
  function RankIn(s: seq<Event>, id: EventId): (r: nat)
    ensures r > 0 <==> exists k :: 0 <= k < |s| && s[k].id == id
  {
    match IndexOfId(s, id)
    case None => 0
    case Some(k) => k + 1
  }

  /** The trip's events after the command, row by row: global_order is the
      rank in the (day, order) listing; day_order is 10 times the rank
      within the day's `order` listing for a non-zero day, and is kept
      otherwise. */
  function Backfilled(events: seq<Event>): (r: seq<Event>)
    ensures |r| == |events|
  {
    seq(|events|, j requires 0 <= j < |events| => BackfillRow(events, events[j]))
  }

  /** The row `e` of the table with its ranks written: its global order
      and, when its day is set, its day order. */
  function BackfillRow(events: seq<Event>, e: Event): Event {
    e.(globalOrder := RankIn(SortByListing(events), e.id),
       dayOrder := if TruthyDay(e) then RankIn(SortByListing(OfDay(events, e.day)), e.id) * DAY_ORDER_STEP else e.dayOrder)
  }

  /** Every global rank is one of 1..n and every written day_order one of
      10, 20, ..., 10m for the m events of that day. */
  lemma BackfilledRanges(events: seq<Event>, j: nat)
    requires j < |events|
    ensures 1 <= Backfilled(events)[j].globalOrder <= |events|
    ensures TruthyDay(events[j]) ==>
      DAY_ORDER_STEP <= Backfilled(events)[j].dayOrder <= |OfDay(events, events[j].day)| * DAY_ORDER_STEP
  {
    var e := events[j];
    SortByListingMembers(events);
    assert e in SortByListing(events);
    var sorted := SortByListing(events);
    var k :| 0 <= k < |sorted| && sorted[k] == e;
    assert RankIn(sorted, e.id) > 0;
    if TruthyDay(e) {
      var day := SortByListing(OfDay(events, e.day));
      SortByListingMembers(OfDay(events, e.day));
      assert e in OfDay(events, e.day);
      assert e in day;
      var m :| 0 <= m < |day| && day[m] == e;
      assert RankIn(day, e.id) > 0;
    }
  }

  /** Running the command twice writes nothing new: the ranks only depend on
      day and order, which it leaves alone. */
  lemma BackfillIdempotent(events: seq<Event>)
    ensures Backfilled(Backfilled(events)) == Backfilled(events)
  {
    var b := Backfilled(events);
    assert SameListingKeys(b, events);
    forall j | 0 <= j < |b|
      ensures Backfilled(b)[j] == b[j]
    {
      RowAgain(b, events, events[j]);
    }
  }

  /** Writing a row's ranks from a table with the same keys writes the same
      ranks again. */
  lemma RowAgain(a: seq<Event>, b: seq<Event>, e: Event)
    requires SameListingKeys(a, b)
    ensures BackfillRow(a, BackfillRow(b, e)) == BackfillRow(b, e)
  {
    SortByListingSameKeys(a, b);
    IndexOfIdSameIds(SortByListing(a), SortByListing(b), e.id);
    DayListingSameRanks(a, b, e.day, e.id);
  }

  // ---------------------------------------------------------------------
  // The days visited

  /** The non-zero days of a listing, each once, in order of first
      appearance. */
  function DaysOf(s: seq<Event>): (r: seq<int>)
    ensures forall d :: d in r ==> d != 0
    ensures forall d :: d in r <==> exists k :: 0 <= k < |s| && TruthyDay(s[k]) && s[k].day.value == d
    ensures forall i, j :: 0 <= i < j < |r| ==> r[i] != r[j]
    decreases |s|
  {
    if s == [] then []
    else
      var p := s[..|s| - 1];
      var r := DaysOf(p);
      var e := s[|s| - 1];
      assert forall k :: 0 <= k < |p| ==> p[k] == s[k];
      if TruthyDay(e) && e.day.value !in r then r + [e.day.value] else r
  }

  /** The number of events whose day is a non-zero day in `ds`. */
  function CountInDays(s: seq<Event>, ds: seq<int>): (n: nat)
    ensures n <= |s|
    decreases |s|
  {
    if s == [] then 0
    else CountInDays(s[..|s| - 1], ds) + (if TruthyDay(s[|s| - 1]) && s[|s| - 1].day.value in ds then 1 else 0)
  }

  /** The number of events with a non-zero day. */
  function CountTruthy(s: seq<Event>): (n: nat)
    ensures n <= |s|
    decreases |s|
  {
    if s == [] then 0 else CountTruthy(s[..|s| - 1]) + (if TruthyDay(s[|s| - 1]) then 1 else 0)
  }

  lemma {:induction false} CountInDaysStep(s: seq<Event>, ds: seq<int>, d: int)
    requires d != 0 && d !in ds
    ensures CountInDays(s, ds + [d]) == CountInDays(s, ds) + |OfDay(s, Some(d))|
    decreases |s|
  {
    if s != [] {
      CountInDaysStep(s[..|s| - 1], ds, d);
    }
  }

  lemma {:induction false} CountInAllDays(s: seq<Event>, ds: seq<int>)
    requires forall k :: 0 <= k < |s| && TruthyDay(s[k]) ==> s[k].day.value in ds
    ensures CountInDays(s, ds) == CountTruthy(s)
    decreases |s|
  {
    if s != [] {
      CountInAllDays(s[..|s| - 1], ds);
    }
  }

  /** The table once the global ranks are written. */
  function Globals(events: seq<Event>): (r: seq<Event>)
    ensures |r| == |events|
  {
    WithRanks(events, SortByListing(events), GlobalRank)
  }

  /** What the visited days have written so far, row by row. */
  function DaysDone(events: seq<Event>, ds: seq<int>): (r: seq<Event>)
    ensures |r| == |events|
  {
    seq(|events|, j requires 0 <= j < |events| =>
      if TruthyDay(events[j]) && events[j].day.value in ds then Backfilled(events)[j] else Globals(events)[j])
  }

  // ---------------------------------------------------------------------
  // The command

  /** `handle` for one trip: the global ranks written first, then each day
      in turn; `updated` is the number of day_order values written. */
  method BackfillTrip(store: TripStore) returns (updated: nat)
    requires store.Valid()
    modifies store
    ensures store.Valid()
    ensures store.events == Backfilled(old(store.events))
    ensures updated == CountTruthy(old(store.events))
    ensures store.trip == old(store.trip) && store.segments == old(store.segments) && store.costs == old(store.costs)
  {
    ghost var events := store.events;
    var allEvents := SortByListing(store.events);
    SortByListingUnique(events);
    store.Renumber(allEvents, GlobalRank);
    var days := DaysOf(allEvents);
    updated := 0;
    GlobalStage(events, days);
    for i := 0 to |days|
      invariant store.Valid()
      invariant store.trip == old(store.trip) && store.segments == old(store.segments) && store.costs == old(store.costs)
      invariant store.events == DaysDone(events, days[..i])
      invariant updated == CountInDays(events, days[..i])
    {
      var count := BackfillDay(store, events, days, i);
      updated := updated + count;
    }
    AllDaysVisited(events, allEvents, days);
    assert days[..|days|] == days;
  }

  /** The second stage for the day `days[i]`: its events, in listing
      order, get day orders 10, 20, ...; `count` of them. */
  method BackfillDay(store: TripStore, ghost events: seq<Event>, days: seq<int>, i: nat) returns (count: nat)
    requires store.Valid() && UniqueIds(events)
    requires days == DaysOf(SortByListing(events)) && i < |days|
    requires store.events == DaysDone(events, days[..i])
    modifies store
    ensures store.Valid()
    ensures store.events == DaysDone(events, days[..i + 1])
    ensures CountInDays(events, days[..i + 1]) == CountInDays(events, days[..i]) + count
    ensures store.trip == old(store.trip) && store.segments == old(store.segments) && store.costs == old(store.costs)
  {
    var dayEvents := SortByListing(OfDay(store.events, Some(days[i])));
    DayLoopStep(events, days, i);
    store.Renumber(dayEvents, DayOrderRank);
    count := |dayEvents|;
  }

  /** No day is done yet once the global ranks are written. */
  lemma GlobalStage(events: seq<Event>, days: seq<int>)
    ensures DaysDone(events, days[..0]) == Globals(events)
    ensures CountInDays(events, days[..0]) == 0
  {
    assert days[..0] == [];
    CountInNoDays(events);
  }

  lemma {:induction false} CountInNoDays(s: seq<Event>)
    ensures CountInDays(s, []) == 0
    decreases |s|
  {
    if s != [] {
      CountInNoDays(s[..|s| - 1]);
    }
  }

  /** The global stage: only global_order changes, to the listing rank. */
  lemma GlobalRankAt(events: seq<Event>, j: nat)
    requires j < |events|
    ensures Globals(events)[j] == events[j].(globalOrder := RankIn(SortByListing(events), events[j].id))
  {
    var m := SortedHas(events, events[j]);
    RankedGlobalAt(events[j], SortByListing(events), m);
  }

  lemma RankedGlobalAt(e: Event, ranked: seq<Event>, m: nat)
    requires m < |ranked| && ranked[m].id == e.id
    ensures RankedEvent(e, ranked, GlobalRank) == e.(globalOrder := RankIn(ranked, e.id))
  {
    assert IndexOfId(ranked, e.id).Some?;
  }

  /** One pass of the day loop: the day's listing has unique ids, renumbering
      it finishes that day, and the count grows by the day's size. */
  lemma DayLoopStep(events: seq<Event>, days: seq<int>, i: nat)
    requires UniqueIds(events)
    requires days == DaysOf(SortByListing(events)) && i < |days|
    ensures var t := DaysDone(events, days[..i]);
      UniqueIds(SortByListing(OfDay(t, Some(days[i])))) &&
      WithRanks(t, SortByListing(OfDay(t, Some(days[i]))), DayOrderRank) == DaysDone(events, days[..i + 1]) &&
      CountInDays(events, days[..i + 1]) == CountInDays(events, days[..i]) + |SortByListing(OfDay(t, Some(days[i])))|
  {
    var d := days[i];
    assert d in days;
    assert days[..i + 1] == days[..i] + [d];
    assert d !in days[..i];
    DayListingUnique(events, days[..i], d);
    DayStage(events, days[..i], d);
    CountInDaysStep(events, days[..i], d);
    DaysDoneKeys(events, days[..i]);
    SameDayCount(DaysDone(events, days[..i]), events, d);
  }

  lemma DayListingUnique(events: seq<Event>, done: seq<int>, d: int)
    requires UniqueIds(events)
    ensures UniqueIds(SortByListing(OfDay(DaysDone(events, done), Some(d))))
  {
    var t := DaysDone(events, done);
    DaysDoneKeys(events, done);
    assert UniqueIds(t) by {
      forall a, b | 0 <= a < b < |t|
        ensures t[a].id != t[b].id
      {
        assert t[a].id == events[a].id && t[b].id == events[b].id;
      }
    }
    OfDayUnique(t, Some(d));
    SortByListingUnique(OfDay(t, Some(d)));
  }

  /** One day's stage finishes that day's rows and touches no other. */
  lemma DayStage(events: seq<Event>, done: seq<int>, d: int)
    requires UniqueIds(events) && d != 0
    ensures var t := DaysDone(events, done);
      WithRanks(t, SortByListing(OfDay(t, Some(d))), DayOrderRank) == DaysDone(events, done + [d])
  {
    var t := DaysDone(events, done);
    DaysDoneKeys(events, done);
    var ranked := SortByListing(OfDay(t, Some(d)));
    var after := WithRanks(t, ranked, DayOrderRank);
    var want := DaysDone(events, done + [d]);
    forall j | 0 <= j < |events|
      ensures after[j] == want[j]
    {
      DayListingSameRanks(t, events, Some(d), events[j].id);
      DayStageAt(events, ranked, done, d, j);
    }
  }

  lemma BackfilledKeys(events: seq<Event>)
    ensures SameListingKeys(Backfilled(events), events)
  {
  }

  lemma GlobalsKeys(events: seq<Event>)
    ensures SameListingKeys(Globals(events), events)
  {
    forall j | 0 <= j < |events|
      ensures Globals(events)[j].order == events[j].order
    {
      GlobalRankAt(events, j);
    }
  }

  lemma DaysDoneKeys(events: seq<Event>, done: seq<int>)
    ensures SameListingKeys(DaysDone(events, done), events)
  {
    BackfilledKeys(events);
    GlobalsKeys(events);
  }

  lemma DayStageAt(events: seq<Event>, ranked: seq<Event>, done: seq<int>, d: int, j: nat)
    requires UniqueIds(events) && d != 0 && j < |events|
    requires IndexOfId(ranked, events[j].id) == IndexOfId(SortByListing(OfDay(events, Some(d))), events[j].id)
    requires DaysDone(events, done)[j].id == events[j].id
    ensures RankedEvent(DaysDone(events, done)[j], ranked, DayOrderRank) == DaysDone(events, done + [d])[j]
  {
    GlobalRankAt(events, j);
    if events[j].day == Some(d) {
      DayMember(events, j);
    } else {
      DayNonMember(events, j, Some(d));
    }
  }

  lemma DayMember(events: seq<Event>, j: nat)
    requires j < |events|
    ensures IndexOfId(SortByListing(OfDay(events, events[j].day)), events[j].id).Some?
  {
    var m := SortedHas(OfDay(events, events[j].day), events[j]);
  }

  /** With unique ids, no other day ranks a row. */
  lemma DayNonMember(events: seq<Event>, j: nat, d: Option<int>)
    requires UniqueIds(events) && j < |events| && events[j].day != d
    ensures IndexOfId(SortByListing(OfDay(events, d)), events[j].id).None?
  {
    var day := SortByListing(OfDay(events, d));
    forall k | 0 <= k < |day|
      ensures day[k].id != events[j].id
    {
      SortedFrom(OfDay(events, d), k);
      OtherDayOtherId(events, j, day[k]);
    }
  }

  lemma OtherDayOtherId(events: seq<Event>, j: nat, x: Event)
    requires UniqueIds(events) && j < |events| && x in events && x.day != events[j].day
    ensures x.id != events[j].id
  {
    var m :| 0 <= m < |events| && events[m] == x;
    if m < j {} else if j < m {}
  }

  /** Each position of the listing holds a row of the table. */
  lemma SortedFrom(s: seq<Event>, k: nat)
    requires k < |SortByListing(s)|
    ensures SortByListing(s)[k] in s
  {
    SortByListingMultiset(s);
    assert SortByListing(s)[k] in multiset(SortByListing(s));
  }

  lemma SameDayCount(a: seq<Event>, b: seq<Event>, d: int)
    requires SameListingKeys(a, b)
    ensures |SortByListing(OfDay(a, Some(d)))| == |OfDay(b, Some(d))|
  {
    OfDaySameKeys(a, b, Some(d));
  }

  /** Sorting keeps every row, so each is at some position of the listing. */
  lemma SortedHas(s: seq<Event>, x: Event) returns (m: nat)
    requires x in s
    ensures m < |SortByListing(s)| && SortByListing(s)[m] == x
  {
    SortByListingMultiset(s);
    assert x in multiset(s);
    assert x in multiset(SortByListing(s));
    m :| 0 <= m < |SortByListing(s)| && SortByListing(s)[m] == x;
  }

  /** Every non-zero day is visited, so the count covers every event with
      one, and every such row is finished. */
  lemma AllDaysVisited(events: seq<Event>, listing: seq<Event>, days: seq<int>)
    requires listing == SortByListing(events) && days == DaysOf(listing)
    ensures forall k :: 0 <= k < |events| && TruthyDay(events[k]) ==> events[k].day.value in days
    ensures CountInDays(events, days) == CountTruthy(events)
    ensures DaysDone(events, days) == Backfilled(events)
  {
    forall k | 0 <= k < |events| && TruthyDay(events[k])
      ensures events[k].day.value in days
    {
      var m := SortedHas(events, events[k]);
    }
    CountInAllDays(events, days);
    AllDaysDone(events, days);
  }

  lemma AllDaysDone(events: seq<Event>, days: seq<int>)
    requires forall k :: 0 <= k < |events| && TruthyDay(events[k]) ==> events[k].day.value in days
    ensures DaysDone(events, days) == Backfilled(events)
  {
    var a, b := DaysDone(events, days), Backfilled(events);
    forall k | 0 <= k < |events|
      ensures a[k] == b[k]
    {
      GlobalRankAt(events, k);
    }
  }

  function SumCounts(tables: seq<seq<Event>>): nat
    decreases |tables|
  {
    if tables == [] then 0 else SumCounts(tables[..|tables| - 1]) + CountTruthy(tables[|tables| - 1])
  }

  /** `after` is what the command leaves of `before`. */
  predicate BackfillOf(after: seq<Event>, before: seq<Event>) {
    after == Backfilled(before)
  }

  lemma SumCountsStep(tables: seq<seq<Event>>, i: nat)
    requires i < |tables|
    ensures SumCounts(tables[..i + 1]) == SumCounts(tables[..i]) + CountTruthy(tables[i])
  {
    assert tables[..i + 1][..i] == tables[..i];
  }

  /** `handle`: every trip back-filled in turn; `total` is the sum of the
      per-day counts over all trips. `tables` names the trips' events
      before the command. */
  method Handle(stores: seq<TripStore>, ghost tables: seq<seq<Event>>) returns (total: nat)
    requires forall i, j :: 0 <= i < j < |stores| ==> stores[i] != stores[j]
    requires forall k :: 0 <= k < |stores| ==> stores[k].Valid()
    requires |tables| == |stores| && forall k :: 0 <= k < |stores| ==> stores[k].events == tables[k]
    modifies set k | 0 <= k < |stores| :: stores[k]
    ensures forall k :: 0 <= k < |stores| ==> stores[k].Valid()
    ensures forall k :: 0 <= k < |stores| ==> BackfillOf(stores[k].events, tables[k])
    ensures total == SumCounts(tables)
  {
    total := 0;
    for i := 0 to |stores|
      invariant forall k :: 0 <= k < |stores| ==> stores[k].Valid()
      invariant forall k :: 0 <= k < i ==> BackfillOf(stores[k].events, tables[k])
      invariant forall k :: i <= k < |stores| ==> stores[k].events == tables[k]
      invariant total == SumCounts(tables[..i])
    {
      assert stores[i].events == tables[i];
      label before:
      var n := BackfillTrip(stores[i]);
      assert BackfillOf(stores[i].events, tables[i]);
      forall k | 0 <= k < |stores| && k != i
        ensures stores[k].events == old@before(stores[k].events)
      {
        assert stores[k] != stores[i];
      }
      SumCountsStep(tables, i);
      total := total + n;
    }
    assert tables[..|stores|] == tables;
  }
}
