/** The Event row (backend/apps/events/models.py): its ordering fields, its
    derived `location` and `display_title`, and the default query order
    (day, day_order) as a stable sort over the table. */
module EventModel {
  import opened Common

  type EventId = int

  /** `day_order` is a decimal with four places; it is kept here as an integer
      count of 0.0001 units. */
  const DAY_ORDER_SCALE: int := 10000
  /** 10.0, the step between consecutive keys of a day and the field default. */
  const DAY_ORDER_STEP: int := 100000
  /** 0.0001, the smallest gap the rebalance check accepts. */
  const MIN_GAP: int := 1

  datatype Location = Location(lat: real, lng: real)

  datatype Event = Event(
    id: EventId,
    order: int,
    globalOrder: int,
    dayOrder: int,
    placeId: string,
    placeName: string,
    lat: Option<real>,
    lng: Option<real>,
    address: string,
    activityType: string,
    customTitle: string,
    day: Option<int>,
    startTime: string,
    durationMin: Option<int>,
    memo: string)

  /** A field of the default row: `global_order` 0 and `day_order` 10.0. */
  function NewEvent(id: EventId, order: int): (e: Event)
    ensures e.id == id && e.order == order
    ensures e.globalOrder == 0 && e.dayOrder == DAY_ORDER_STEP
    ensures e.day.None? && e.lat.None? && e.lng.None?
  {
    Event(id, order, 0, DAY_ORDER_STEP, "", "", None, None, "", "", "", None, "", None, "")
  }

  /** A coordinate is truthy when it is present and not zero. */
  predicate Truthy(x: Option<real>) {
    x.Some? && x.value != 0.0
  }

  /** `Event.location`: both coordinates, or nothing when either is null or zero. */
  function LocationOf(e: Event): (r: Option<Location>)
    ensures r.None? <==> !Truthy(e.lat) || !Truthy(e.lng)
    ensures r.Some? ==> r.value.lat == e.lat.value && r.value.lng == e.lng.value
  {
    if Truthy(e.lat) && Truthy(e.lng) then Some(Location(e.lat.value, e.lng.value)) else None
  }

  predicate Located(e: Event) {
    LocationOf(e).Some?
  }

  /** `Event.display_title`. */
  function DisplayTitle(e: Event): (t: string)
  {
    if e.customTitle != [] then e.customTitle
    else if e.placeName != [] then
      (if e.activityType != [] then e.placeName + " - " + e.activityType else e.placeName)
    else "Event " + IntToString(e.order)
  }

  /** The title is never empty, a custom title wins, a place name comes first
      and the activity is appended after " - ", and an event with neither is
      "Event " followed by its order. */
  lemma DisplayTitleCases(e: Event)
    ensures |DisplayTitle(e)| > 0
    ensures e.customTitle != [] ==> DisplayTitle(e) == e.customTitle
    ensures e.customTitle == [] && e.placeName != [] ==>
      StartsWith(DisplayTitle(e), e.placeName)
      && (e.activityType == [] <==> DisplayTitle(e) == e.placeName)
      && (e.activityType != [] ==> DisplayTitle(e)[|e.placeName|..] == " - " + e.activityType)
    ensures e.customTitle == [] && e.placeName == [] ==>
      StartsWith(DisplayTitle(e), "Event ") && DisplayTitle(e)[6..] == IntToString(e.order)
  {
    var t := DisplayTitle(e);
    if e.customTitle == [] && e.placeName != [] && e.activityType != [] {
      assert t == e.placeName + (" - " + e.activityType);
      assert t[..|e.placeName|] == e.placeName;
    }
    if e.customTitle == [] && e.placeName == [] {
      assert t == "Event " + IntToString(e.order);
    }
  }

  // ---------------------------------------------------------------------
  // Ordering: Meta.ordering = ['day', 'day_order']

  /** Ascending day with NULL sorting after every integer day. */
  predicate DayLe(a: Option<int>, b: Option<int>) {
    match (a, b)
    case (Some(x), Some(y)) => x <= y
    case (Some(_), None) => true
    case (None, Some(_)) => false
    case (None, None) => true
  }

  predicate KeyLe(a: Event, b: Event) {
    if a.day == b.day then a.dayOrder <= b.dayOrder else DayLe(a.day, b.day)
  }

  lemma KeyLeTotal(a: Event, b: Event)
    ensures KeyLe(a, b) || KeyLe(b, a)
  {
  }

  lemma KeyLeTransitive(a: Event, b: Event, c: Event)
    requires KeyLe(a, b) && KeyLe(b, c)
    ensures KeyLe(a, c)
  {
  }

  predicate SortedByKey(s: seq<Event>) {
    forall i, j :: 0 <= i < j < |s| ==> KeyLe(s[i], s[j])
  }

  /** Inserts after every element not greater than `e`, so rows of equal key
      keep their table order. */
  function InsertByKey(e: Event, s: seq<Event>): (r: seq<Event>)
    ensures |r| == |s| + 1
    decreases |s|
  {
    if s == [] then [e]
    else if KeyLe(s[0], e) then [s[0]] + InsertByKey(e, s[1..])
    else [e] + s
  }

  /** The rows of a table in the query order (day, day_order). */
  function SortByKey(s: seq<Event>): (r: seq<Event>)
    ensures |r| == |s|
    decreases |s|
  {
    if s == [] then [] else InsertByKey(s[|s| - 1], SortByKey(s[..|s| - 1]))
  }

  lemma {:induction false} InsertByKeyElements(e: Event, s: seq<Event>)
    ensures multiset(InsertByKey(e, s)) == multiset(s) + multiset{e}
    ensures forall x :: x in InsertByKey(e, s) <==> x == e || x in s
    decreases |s|
  {
    if s != [] && KeyLe(s[0], e) {
      InsertByKeyElements(e, s[1..]);
      assert s == [s[0]] + s[1..];
    }
  }

  lemma {:induction false} InsertByKeySorted(e: Event, s: seq<Event>)
    requires SortedByKey(s)
    ensures SortedByKey(InsertByKey(e, s))
    decreases |s|
  {
    if s != [] && KeyLe(s[0], e) {
      var t := s[1..];
      assert SortedByKey(t);
      InsertByKeySorted(e, t);
      InsertByKeyElements(e, t);
      var r := InsertByKey(e, t);
      assert forall x :: x in r ==> KeyLe(s[0], x) by {
        forall x | x in r
          ensures KeyLe(s[0], x)
        {
          if x != e {
            var k :| 0 <= k < |t| && t[k] == x;
            assert s[k + 1] == x;
          }
        }
      }
      var q := [s[0]] + r;
      forall i, j | 0 <= i < j < |q|
        ensures KeyLe(q[i], q[j])
      {
        assert q[j] == r[j - 1];
        assert r[j - 1] in r;
        if i > 0 {
          assert q[i] == r[i - 1];
        }
      }
    } else if s != [] {
      var q := [e] + s;
      forall i, j | 0 <= i < j < |q|
        ensures KeyLe(q[i], q[j])
      {
        assert q[j] == s[j - 1];
        if i == 0 {
          KeyLeTotal(s[0], e);
          if j - 1 > 0 {
            KeyLeTransitive(e, s[0], s[j - 1]);
          }
        } else {
          assert q[i] == s[i - 1];
        }
      }
    }
  }

  /** The query order is sorted by (day, day_order) and reorders the table
      without losing or adding rows. */
  lemma SortByKeyProps(s: seq<Event>)
    ensures SortedByKey(SortByKey(s))
    ensures multiset(SortByKey(s)) == multiset(s)
  {
    SortByKeySorted(s);
    SortByKeyPermutes(s);
  }

  lemma {:induction false} SortByKeySorted(s: seq<Event>)
    ensures SortedByKey(SortByKey(s))
    decreases |s|
  {
    if s != [] {
      var p := s[..|s| - 1];
      SortByKeySorted(p);
      InsertByKeySorted(s[|s| - 1], SortByKey(p));
    }
  }

  lemma {:induction false} SortByKeyPermutes(s: seq<Event>)
    ensures multiset(SortByKey(s)) == multiset(s)
    decreases |s|
  {
    if s != [] {
      var p := s[..|s| - 1];
      var e := s[|s| - 1];
      SortByKeyPermutes(p);
      SortByKeySnoc(s, p, e);
    }
  }

  /** Inserting the last row into the sorted front keeps the rows. */
  lemma SortByKeySnoc(s: seq<Event>, p: seq<Event>, e: Event)
    requires s != [] && p == s[..|s| - 1] && e == s[|s| - 1]
    requires multiset(SortByKey(p)) == multiset(p)
    ensures multiset(SortByKey(s)) == multiset(s)
  {
    InsertByKeyElements(e, SortByKey(p));
    assert SortByKey(s) == InsertByKey(e, SortByKey(p));
    assert s == p + [e];
  }

  // ---------------------------------------------------------------------
  // Rows and id lookups

  function Ids(s: seq<Event>): seq<EventId>
    decreases |s|
  {
    if s == [] then [] else [s[0].id] + Ids(s[1..])
  }

  predicate UniqueIds(s: seq<Event>) {
    forall i, j :: 0 <= i < j < |s| ==> s[i].id != s[j].id
  }

  /** Two tables hold the same rows, position by position, as far as the
      query order can see: same id, day and day_order. */
  predicate SameKeys(a: seq<Event>, b: seq<Event>) {
    |a| == |b| &&
    forall i :: 0 <= i < |a| ==>
      a[i].id == b[i].id && a[i].day == b[i].day && a[i].dayOrder == b[i].dayOrder
  }

  lemma {:induction false} InsertByKeySameKeys(e: Event, f: Event, a: seq<Event>, b: seq<Event>)
    requires SameKeys(a, b)
    requires e.id == f.id && e.day == f.day && e.dayOrder == f.dayOrder
    ensures SameKeys(InsertByKey(e, a), InsertByKey(f, b))
    decreases |a|
  {
    if a == [] {
      SameKeysCons(e, f, a, b);
    } else if KeyLe(a[0], e) {
      assert KeyLe(b[0], f);
      assert SameKeys(a[1..], b[1..]);
      InsertByKeySameKeys(e, f, a[1..], b[1..]);
      SameKeysCons(a[0], b[0], InsertByKey(e, a[1..]), InsertByKey(f, b[1..]));
    } else {
      assert !KeyLe(b[0], f);
      SameKeysCons(e, f, a, b);
    }
  }

  lemma SameKeysCons(x: Event, y: Event, a: seq<Event>, b: seq<Event>)
    requires SameKeys(a, b)
    requires x.id == y.id && x.day == y.day && x.dayOrder == y.dayOrder
    ensures SameKeys([x] + a, [y] + b)
  {
    forall i | 0 < i < |a| + 1
      ensures ([x] + a)[i] == a[i - 1] && ([y] + b)[i] == b[i - 1]
    {
    }
  }

  /** The query order depends on nothing but id, day and day_order: two tables
      that agree on those come out in the same order. */
  lemma {:induction false} SortByKeySameKeys(a: seq<Event>, b: seq<Event>)
    requires SameKeys(a, b)
    ensures SameKeys(SortByKey(a), SortByKey(b))
    decreases |a|
  {
    if a != [] {
      assert SameKeys(a[..|a| - 1], b[..|b| - 1]);
      SortByKeySameKeys(a[..|a| - 1], b[..|b| - 1]);
      InsertByKeySameKeys(a[|a| - 1], b[|b| - 1], SortByKey(a[..|a| - 1]), SortByKey(b[..|b| - 1]));
    }
  }

  /** The position of the row with a given id, if any. */
  function IndexOfId(s: seq<Event>, id: EventId): (r: Option<nat>)
    ensures r.Some? ==> r.value < |s| && s[r.value].id == id
    ensures r.None? <==> forall i :: 0 <= i < |s| ==> s[i].id != id
    ensures r.Some? ==> forall i :: 0 <= i < r.value ==> s[i].id != id
    decreases |s|
  {
    if s == [] then None
    else if s[0].id == id then Some(0)
    else match IndexOfId(s[1..], id)
      case None => None
      case Some(k) => Some(k + 1)
  }

  /** The row with a given id, as `events_map.get(id)` finds it. */
  function FindEvent(s: seq<Event>, id: EventId): (r: Option<Event>)
    ensures r.Some? ==> r.value in s && r.value.id == id
    ensures r.None? <==> forall e :: e in s ==> e.id != id
  {
    match IndexOfId(s, id)
    case None => None
    case Some(k) => Some(s[k])
  }

  lemma UniqueIndex(s: seq<Event>, i: nat)
    requires UniqueIds(s) && i < |s|
    ensures IndexOfId(s, s[i].id) == Some(i)
  {
  }

  /** The rows of one day, in table order (`filter(day=d)`). */
  function OfDay(s: seq<Event>, d: Option<int>): (r: seq<Event>)
    ensures forall e :: e in r <==> e in s && e.day == d
    ensures |r| <= |s|
    decreases |s|
  {
    if s == [] then []
    else if s[|s| - 1].day == d then OfDay(s[..|s| - 1], d) + [s[|s| - 1]]
    else OfDay(s[..|s| - 1], d)
  }

  lemma {:induction false} OfDayAbsent(s: seq<Event>, d: Option<int>)
    requires forall e :: e in s ==> e.day != d
    ensures OfDay(s, d) == []
    decreases |s|
  {
    if s != [] {
      assert s[|s| - 1] in s;
      assert forall e :: e in s[..|s| - 1] ==> e in s;
      OfDayAbsent(s[..|s| - 1], d);
    }
  }

  lemma {:induction false} OfDayUnique(s: seq<Event>, d: Option<int>)
    requires UniqueIds(s)
    ensures UniqueIds(OfDay(s, d))
    decreases |s|
  {
    if s != [] {
      OfDayUnique(s[..|s| - 1], d);
    }
  }

  lemma {:induction false} InsertByKeyUnique(e: Event, s: seq<Event>)
    requires UniqueIds(s)
    requires forall x :: x in s ==> x.id != e.id
    ensures UniqueIds(InsertByKey(e, s))
    decreases |s|
  {
    if s != [] && KeyLe(s[0], e) {
      InsertByKeyUnique(e, s[1..]);
      InsertByKeyElements(e, s[1..]);
      var r := InsertByKey(e, s[1..]);
      var q := [s[0]] + r;
      forall i, j | 0 <= i < j < |q|
        ensures q[i].id != q[j].id
      {
        assert q[j] == r[j - 1];
        assert r[j - 1] in r;
        if i > 0 {
          assert q[i] == r[i - 1];
        } else if r[j - 1] != e {
          var k :| 0 <= k < |s[1..]| && s[1..][k] == r[j - 1];
          assert s[k + 1] == r[j - 1];
        }
      }
    }
  }

  /** Sorting keeps ids unique. */
  lemma {:induction false} SortByKeyUnique(s: seq<Event>)
    requires UniqueIds(s)
    ensures UniqueIds(SortByKey(s))
    ensures forall x :: x in SortByKey(s) <==> x in s
    decreases |s|
  {
    if s != [] {
      var p := s[..|s| - 1];
      var e := s[|s| - 1];
      SortByKeyUnique(p);
      InsertByKeyElements(e, SortByKey(p));
      forall x | x in SortByKey(p)
        ensures x.id != e.id
      {
        var k :| 0 <= k < |p| && p[k] == x;
      }
      InsertByKeyUnique(e, SortByKey(p));
      assert s == p + [e];
    }
  }
}
