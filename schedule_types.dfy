/** What the schedule screens (PlaceList, ScheduleView, WeeklyScheduleView,
    RouteSegmentModal) share: the place and segment records they receive,
    JavaScript's falsy defaults, "HH:MM" times read with `split(":")` and
    `Number`, and written back with `padStart(2, "0")`. */
module ScheduleTypes {
  import opened Common

  datatype TravelMode = Driving | Walking | Transit | Bicycling

  /** A place as the schedule screens use it. `day`, `visitTime` and
      `durationMin` may be missing (`None`); `Some(0)`, `Some("")` count as
      missing wherever the source tests them for truthiness. */
  datatype DayPlace = DayPlace(
    id: string,
    placeId: string,
    name: string,
    day: Option<int>,
    order: real,
    visitTime: Option<string>,
    durationMin: Option<int>)

  /** A leg between two places. */
  datatype Segment = Segment(
    fromPlaceId: string,
    toPlaceId: string,
    durationMin: int,
    distanceKm: real,
    travelMode: Option<TravelMode>,
    departureTime: Option<string>)

  /** `place.visitTime` is truthy. */
  predicate HasTime(p: DayPlace) {
    p.visitTime.Some? && p.visitTime.value != ""
  }

  /** `place.day || 1`. */
  function DayKey(p: DayPlace): (d: int)
    ensures d != 0
    ensures p.day.Some? && p.day.value != 0 ==> d == p.day.value
    ensures p.day.None? || p.day.value == 0 ==> d == 1
  {
    if p.day.Some? && p.day.value != 0 then p.day.value else 1
  }

  /** `place.durationMin || fallback`. */
  function DurationOr(p: DayPlace, fallback: int): (m: int)
    ensures p.durationMin.Some? && p.durationMin.value != 0 ==> m == p.durationMin.value
    ensures p.durationMin.None? || p.durationMin.value == 0 ==> m == fallback
  {
    if p.durationMin.Some? && p.durationMin.value != 0 then p.durationMin.value else fallback
  }

  // ---------------------------------------------------------------------
  // Reading "HH:MM"

  /** `s.split(sep)`. */
  function SplitOn(s: string, sep: char): (parts: seq<string>)
    ensures |parts| >= 1
    ensures forall k :: 0 <= k < |parts| ==> sep !in parts[k]
    decreases |s|
  {
    if s == [] then [""]
    else if s[0] == sep then [""] + SplitOn(s[1..], sep)
    else
      var rest := SplitOn(s[1..], sep);
      [[s[0]] + rest[0]] + rest[1..]
  }

  /** Two pieces joined by the separator split back into those pieces. */
  lemma {:induction false} SplitJoined(a: string, b: string, sep: char)
    requires sep !in a && sep !in b
    ensures SplitOn(a + [sep] + b, sep) == [a, b]
    decreases |a|
  {
    var s := a + [sep] + b;
    if a == [] {
      assert s == [sep] + b;
      assert s[1..] == b;
      NoSeparator(b, sep);
    } else {
      assert s[0] == a[0] && s[1..] == a[1..] + [sep] + b;
      SplitJoined(a[1..], b, sep);
      assert [a[0]] + a[1..] == a;
    }
  }

  /** Text without the separator is one piece. */
  lemma {:induction false} NoSeparator(s: string, sep: char)
    requires sep !in s
    ensures SplitOn(s, sep) == [s]
    decreases |s|
  {
    if s != [] {
      NoSeparator(s[1..], sep);
      assert [s[0]] + s[1..] == s;
    }
  }

  /** `Number(part)` for the pieces of a time: digits give their value, the
      empty string gives 0, anything else NaN (`None`). */
  function JsNumber(s: string): (r: Option<int>)
    ensures r.Some? <==> IsDigits(s)
    ensures r.Some? ==> r.value >= 0
  {
    if IsDigits(s) then Some(DigitsValue(s)) else None
  }

  /** `const [h, m] = t.split(":").map(Number)`: `None` when either is NaN
      (a missing minutes part is `Number(undefined)`). */
  function Clock(t: string): (r: Option<(int, int)>)
    ensures r.Some? ==> r.value.0 >= 0 && r.value.1 >= 0
  {
    var parts := SplitOn(t, ':');
    var h := JsNumber(parts[0]);
    var m := if |parts| > 1 then JsNumber(parts[1]) else None;
    if h.Some? && m.Some? then Some((h.value, m.value)) else None
  }

  /** `h * 60 + m`, NaN as `None`. */
  function ClockMinutes(t: string): (r: Option<int>)
    ensures r.Some? <==> Clock(t).Some?
    ensures r.Some? ==> r.value == Clock(t).value.0 * 60 + Clock(t).value.1
  {
    match Clock(t)
    case None => None
    case Some((h, m)) => Some(h * 60 + m)
  }

  // ---------------------------------------------------------------------
  // Writing "HH:MM"

  /** `${String(h).padStart(2, "0")}:${String(m).padStart(2, "0")}` for a
      total of minutes: hours `Math.floor(total / 60)`, taken `% 24` when
      `wrap`, and minutes `total % 60`, with JavaScript's remainder. */
  function FormatClock(total: int, wrap: bool): string
  {
    var hours := if wrap then TruncRem(total / 60, 24) else total / 60;
    Pad2(hours) + ":" + Pad2(TruncRem(total, 60))
  }

  /** A non-negative number printed two digits wide is read back. */
  lemma Pad2Reads(i: nat)
    ensures IsDigits(Pad2(i)) && ':' !in Pad2(i) && |Pad2(i)| >= 2
    ensures JsNumber(Pad2(i)) == Some(i)
  {
    if i < 10 {
      var s := Pad2(i);
      assert s == ['0', DigitChar(i)];
      assert s[..1] == ['0'];
      assert DigitsValue(s[..1]) == 0;
      assert DigitValue(DigitChar(i)) == i;
    } else {
      NatToStringRoundTrip(i);
    }
  }

  /** Two numbers joined by a colon read back as those numbers. */
  lemma ClockOfJoined(a: string, b: string, h: int, m: int)
    requires ':' !in a && ':' !in b
    requires JsNumber(a) == Some(h) && JsNumber(b) == Some(m)
    ensures Clock(a + [':'] + b) == Some((h, m))
  {
    SplitJoined(a, b, ':');
  }

  /** Two numbers written two digits wide around a colon read back. */
  lemma ClockOfPads(h: nat, m: nat)
    ensures Clock(Pad2(h) + ":" + Pad2(m)) == Some((h, m))
  {
    Pad2Reads(h);
    Pad2Reads(m);
    ClockOfJoined(Pad2(h), Pad2(m), h, m);
  }

  /** For a non-negative total the clock shows `total / 60` hours (modulo
      24 when wrapping) and `total % 60` minutes. */
  lemma FormatClockOfNat(total: nat, wrap: bool)
    ensures FormatClock(total, wrap) == Pad2(if wrap then (total / 60) % 24 else total / 60) + ":" + Pad2(total % 60)
  {
  }

  /** A time written by `FormatClock` reads back as the hours and minutes it
      was written from. */
  lemma ClockReadsFormat(total: nat, wrap: bool)
    ensures Clock(FormatClock(total, wrap)) == Some((if wrap then (total / 60) % 24 else total / 60, total % 60))
  {
    FormatClockOfNat(total, wrap);
    ClockOfPads(if wrap then (total / 60) % 24 else total / 60, total % 60);
  }

  /** A text of two padded numbers around a colon reads as `h * 60 + m`
      minutes. */
  lemma MinutesOfPads(s: string, h: nat, m: nat, n: int)
    requires s == Pad2(h) + ":" + Pad2(m) && h * 60 + m == n
    ensures ClockMinutes(s) == Some(n)
  {
    ClockOfPads(h, m);
  }

  /** Read back as minutes, a written time is its total, less whole days
      when wrapping. */
  lemma ClockMinutesOfFormat(total: nat, wrap: bool)
    ensures ClockMinutes(FormatClock(total, wrap)) == Some(if wrap then total % 1440 else total)
  {
    var h := if wrap then (total / 60) % 24 else total / 60;
    var m := total % 60;
    var n := if wrap then total % 1440 else total;
    FormatClockOfNat(total, wrap);
    PartsMakeTotal(total, wrap, h, m, n);
    MinutesOfPads(FormatClock(total, wrap), h, m, n);
  }

  /** The hours and minutes a total is written with make up the total,
      less whole days when wrapping. */
  lemma PartsMakeTotal(total: nat, wrap: bool, h: int, m: int, n: int)
    requires h == (if wrap then (total / 60) % 24 else total / 60) && m == total % 60
    requires n == (if wrap then total % 1440 else total)
    ensures h * 60 + m == n
  {
    if wrap {
      DayWrap(total);
    } else {
      HourSplit(total);
    }
  }

  /** `h * 60 + m + minutes` from a time, written back as "HH:MM" (hours
      taken `% 24` when `wrap`); "NaN:NaN" when the time does not read. */
  function ShiftClock(t: string, minutes: int, wrap: bool): string
  {
    ShiftMinutes(ClockMinutes(t), minutes, wrap)
  }

  /** The shift on a time already read as minutes. */
  function ShiftMinutes(start: Option<int>, minutes: int, wrap: bool): string
  {
    match start
    case None => "NaN:NaN"
    case Some(v) => FormatClock(v + minutes, wrap)
  }

  /** A shifted time reads back as the old time plus the shift, less whole
      days when wrapping. */
  lemma ShiftClockReadsBack(t: string, minutes: int, wrap: bool)
    requires ClockMinutes(t).Some? && ClockMinutes(t).value + minutes >= 0
    ensures ClockMinutes(ShiftClock(t, minutes, wrap)) ==
      Some(if wrap then (ClockMinutes(t).value + minutes) % 1440 else ClockMinutes(t).value + minutes)
  {
    var start := ClockMinutes(t);
    assert ShiftClock(t, minutes, wrap) == ShiftMinutes(start, minutes, wrap);
    ShiftedReads(start.value, minutes, wrap);
  }

  /** A time read as `start` minutes and shifted reads back as the sum. */
  lemma ShiftedReads(start: int, minutes: int, wrap: bool)
    requires start + minutes >= 0
    ensures ClockMinutes(ShiftMinutes(Some(start), minutes, wrap)) == Some(if wrap then (start + minutes) % 1440 else start + minutes)
  {
    var s := ShiftMinutes(Some(start), minutes, wrap);
    assert s == FormatClock(start + minutes, wrap);
    FormatReadsAs(s, start + minutes, wrap, if wrap then (start + minutes) % 1440 else start + minutes);
  }

  /** A text written by `FormatClock` reads as the minutes it was written
      from. */
  lemma FormatReadsAs(s: string, total: nat, wrap: bool, n: int)
    requires s == FormatClock(total, wrap) && n == (if wrap then total % 1440 else total)
    ensures ClockMinutes(s) == Some(n)
  {
    ClockMinutesOfFormat(total, wrap);
  }

  lemma HourSplit(total: nat)
    ensures (total / 60) * 60 + total % 60 == total
  {
  }

  lemma DayWrap(total: nat)
    ensures ((total / 60) % 24) * 60 + total % 60 == total % 1440
  {
    var q := total / 60;
    var r := total % 60;
    assert total == 60 * q + r;
    var d := q / 24;
    assert q == 24 * d + q % 24;
    assert total == 1440 * d + ((q % 24) * 60 + r);
  }

  // ---------------------------------------------------------------------
  // Durations

  /** `Math.floor(minutes / 60)` and `minutes % 60`. */
  function DurationParts(minutes: int): (r: (int, int))
    ensures r.0 * 60 + r.1 == minutes
    ensures minutes >= 0 ==> 0 <= r.1 < 60 && r.0 >= 0
  {
    var hours := minutes / 60;
    (hours, minutes - hours * 60)
  }

  /** `formatDuration`: "H시간 M분" from an hour on, else "M분". */
  function FormatDuration(minutes: int): (s: string)
    ensures minutes >= 60 ==> s == IntToString(minutes / 60) + "시간 " + IntToString(minutes % 60) + "분"
    ensures minutes < 60 ==> s == IntToString(TruncRem(minutes, 60)) + "분"
  {
    var hours := minutes / 60;
    var mins := TruncRem(minutes, 60);
    if hours > 0 then IntToString(hours) + "시간 " + IntToString(mins) + "분"
    else IntToString(mins) + "분"
  }

  /** Where the leading run of digits ends. */
  function DigitRun(s: string): (n: nat)
    ensures n <= |s|
    decreases |s|
  {
    if s != [] && '0' <= s[0] <= '9' then 1 + DigitRun(s[1..]) else 0
  }

  lemma {:induction false} DigitRunOf(x: string, c: char, y: string)
    requires IsDigits(x) && !('0' <= c <= '9')
    ensures DigitRun(x + [c] + y) == |x|
    decreases |x|
  {
    var s := x + [c] + y;
    if x == [] {
      assert s[0] == c;
    } else {
      assert s[0] == x[0] && s[1..] == x[1..] + [c] + y;
      DigitRunOf(x[1..], c, y);
    }
  }

  /** A digit run followed by a non-digit mark splits in one way only. */
  lemma ReadLabel(x1: string, c1: char, y1: string, x2: string, c2: char, y2: string)
    requires IsDigits(x1) && IsDigits(x2) && !('0' <= c1 <= '9') && !('0' <= c2 <= '9')
    requires x1 + [c1] + y1 == x2 + [c2] + y2
    ensures x1 == x2 && c1 == c2 && y1 == y2
  {
    var s := x1 + [c1] + y1;
    DigitRunOf(x1, c1, y1);
    DigitRunOf(x2, c2, y2);
    assert s[..|x1|] == x1 && s[..|x2|] == x2;
    assert s[|x1|] == c1 && s[|x2|] == c2;
    assert s[|x1| + 1..] == y1 && s[|x2| + 1..] == y2;
  }

  /** The leading number of a duration label, the mark after it and the
      rest. */
  function LabelLead(m: nat): string {
    if m >= 60 then NatToString(m / 60) else NatToString(m)
  }

  function LabelMark(m: nat): char {
    if m >= 60 then '시' else '분'
  }

  function LabelTail(m: nat): string {
    if m >= 60 then "간 " + NatToString(m % 60) + "분" else ""
  }

  lemma FormatDurationShape(m: nat)
    ensures FormatDuration(m) == LabelLead(m) + [LabelMark(m)] + LabelTail(m)
  {
    if m >= 60 {
      assert "시간 " == ['시'] + "간 ";
    } else {
      assert m % 60 == m;
    }
  }

  /** The minutes of an hour-long label sit between its fixed words. */
  lemma LabelTailMinutes(m: nat)
    requires m >= 60
    ensures |LabelTail(m)| >= 3 && LabelTail(m)[2..|LabelTail(m)| - 1] == NatToString(m % 60)
  {
    var t := LabelTail(m);
    var d := NatToString(m % 60);
    assert t == "간 " + d + "분";
    assert t[2..|t| - 1] == d;
  }

  /** Distinct durations get distinct labels: the label names the
      duration. */
  lemma FormatDurationInjective(a: nat, b: nat)
    requires FormatDuration(a) == FormatDuration(b)
    ensures a == b
  {
    FormatDurationShape(a);
    FormatDurationShape(b);
    ReadLabel(LabelLead(a), LabelMark(a), LabelTail(a), LabelLead(b), LabelMark(b), LabelTail(b));
    if a >= 60 {
      SameHoursLabel(a, b);
    } else {
      NatToStringRoundTrip(a);
      NatToStringRoundTrip(b);
    }
  }

  lemma SameHoursLabel(a: nat, b: nat)
    requires a >= 60 && b >= 60
    requires LabelLead(a) == LabelLead(b) && LabelTail(a) == LabelTail(b)
    ensures a == b
  {
    NatToStringRoundTrip(a / 60);
    NatToStringRoundTrip(b / 60);
    LabelTailMinutes(a);
    LabelTailMinutes(b);
    NatToStringRoundTrip(a % 60);
    NatToStringRoundTrip(b % 60);
  }

  // ---------------------------------------------------------------------
  // Sorting by visit time

  /** Code-unit order on strings, which is `localeCompare`'s order on
      "HH:MM" times. */
  predicate StrLe(a: string, b: string)
    decreases |a|
  {
    if a == [] then true
    else if b == [] then false
    else if a[0] != b[0] then a[0] < b[0]
    else StrLe(a[1..], b[1..])
  }

  lemma {:induction false} StrLeTotal(a: string, b: string)
    ensures StrLe(a, b) || StrLe(b, a)
    decreases |a|
  {
    if a != [] && b != [] && a[0] == b[0] {
      StrLeTotal(a[1..], b[1..]);
    }
  }

  lemma {:induction false} StrLeTransitive(a: string, b: string, c: string)
    requires StrLe(a, b) && StrLe(b, c)
    ensures StrLe(a, c)
    decreases |a|
  {
    if a != [] && b != [] && c != [] && a[0] == b[0] && b[0] == c[0] {
      StrLeTransitive(a[1..], b[1..], c[1..]);
    }
  }

  /** The comparator `if (!a.visitTime) return 1; if (!b.visitTime) return
      -1; return a.visitTime.localeCompare(b.visitTime)`, as "a may stay
      before b": timed places by time, untimed ones after all timed ones. */
  predicate TimeLe(a: DayPlace, b: DayPlace) {
    !HasTime(b) || (HasTime(a) && StrLe(a.visitTime.value, b.visitTime.value))
  }

  lemma TimeLeTotal(a: DayPlace, b: DayPlace)
    ensures TimeLe(a, b) || TimeLe(b, a)
  {
    if HasTime(a) && HasTime(b) {
      StrLeTotal(a.visitTime.value, b.visitTime.value);
    }
  }

  lemma TimeLeTransitive(a: DayPlace, b: DayPlace, c: DayPlace)
    requires TimeLe(a, b) && TimeLe(b, c)
    ensures TimeLe(a, c)
  {
    if HasTime(c) {
      StrLeTransitive(a.visitTime.value, b.visitTime.value, c.visitTime.value);
    }
  }

  predicate SortedByTime(s: seq<DayPlace>) {
    forall i, j :: 0 <= i < j < |s| ==> TimeLe(s[i], s[j])
  }

  /** Inserts after every element that may stay before `p`. */
  function InsertByTime(p: DayPlace, s: seq<DayPlace>): (r: seq<DayPlace>)
    ensures |r| == |s| + 1
    decreases |s|
  {
    if s == [] then [p]
    else if TimeLe(s[0], p) then [s[0]] + InsertByTime(p, s[1..])
    else [p] + s
  }

  /** `Array.prototype.sort` with that comparator, taken to be stable. */
  function SortByTime(s: seq<DayPlace>): (r: seq<DayPlace>)
    ensures |r| == |s|
    decreases |s|
  {
    if s == [] then [] else InsertByTime(s[|s| - 1], SortByTime(s[..|s| - 1]))
  }

  lemma {:induction false} InsertByTimeMultiset(p: DayPlace, s: seq<DayPlace>)
    ensures multiset(InsertByTime(p, s)) == multiset(s) + multiset{p}
    decreases |s|
  {
    if s != [] && TimeLe(s[0], p) {
      InsertByTimeMultiset(p, s[1..]);
      assert s == [s[0]] + s[1..];
    }
  }

  lemma {:induction false} InsertByTimeSorted(p: DayPlace, s: seq<DayPlace>)
    requires SortedByTime(s)
    ensures SortedByTime(InsertByTime(p, s))
    decreases |s|
  {
    if s != [] && TimeLe(s[0], p) {
      InsertByTimeSorted(p, s[1..]);
      InsertBehindHead(p, s);
    } else if s != [] {
      InsertInFront(p, s);
    }
  }

  /** Every element of the insertion into the tail may follow the head. */
  lemma InsertBehindHead(p: DayPlace, s: seq<DayPlace>)
    requires SortedByTime(s) && s != [] && TimeLe(s[0], p)
    requires SortedByTime(InsertByTime(p, s[1..]))
    ensures SortedByTime([s[0]] + InsertByTime(p, s[1..]))
  {
    HeadBeforeInserted(p, s);
    ConsSorted(s[0], InsertByTime(p, s[1..]));
  }

  lemma HeadBeforeInserted(p: DayPlace, s: seq<DayPlace>)
    requires SortedByTime(s) && s != [] && TimeLe(s[0], p)
    ensures forall x :: x in InsertByTime(p, s[1..]) ==> TimeLe(s[0], x)
  {
    var t := s[1..];
    InsertByTimeMultiset(p, t);
    forall x | x in InsertByTime(p, t)
      ensures TimeLe(s[0], x)
    {
      assert x in multiset(InsertByTime(p, t));
      if x != p {
        assert x in multiset(t);
        var k :| 0 <= k < |t| && t[k] == x;
        assert s[k + 1] == x;
      }
    }
  }

  lemma ConsSorted(h: DayPlace, r: seq<DayPlace>)
    requires SortedByTime(r) && forall x :: x in r ==> TimeLe(h, x)
    ensures SortedByTime([h] + r)
  {
    var q := [h] + r;
    forall i, j | 0 <= i < j < |q|
      ensures TimeLe(q[i], q[j])
    {
      assert q[j] == r[j - 1];
      if i > 0 {
        assert q[i] == r[i - 1];
      }
    }
  }

  /** A place that may not follow the head goes before the whole list. */
  lemma InsertInFront(p: DayPlace, s: seq<DayPlace>)
    requires SortedByTime(s) && s != [] && !TimeLe(s[0], p)
    ensures SortedByTime([p] + s)
  {
    var q := [p] + s;
    forall i, j | 0 <= i < j < |q|
      ensures TimeLe(q[i], q[j])
    {
      assert q[j] == s[j - 1];
      if i == 0 {
        TimeLeTotal(s[0], p);
        if j - 1 > 0 {
          TimeLeTransitive(p, s[0], s[j - 1]);
        }
      } else {
        assert q[i] == s[i - 1];
      }
    }
  }

  /** The sorted group is in visit-time order, untimed places last. */
  lemma {:induction false} SortByTimeSorted(s: seq<DayPlace>)
    ensures SortedByTime(SortByTime(s))
    decreases |s|
  {
    if s != [] {
      SortByTimeSorted(s[..|s| - 1]);
      InsertByTimeSorted(s[|s| - 1], SortByTime(s[..|s| - 1]));
    }
  }

  /** Sorting keeps exactly the places it was given. */
  lemma {:induction false} SortByTimeMultiset(s: seq<DayPlace>)
    ensures multiset(SortByTime(s)) == multiset(s)
    decreases |s|
  {
    if s != [] {
      var p := s[..|s| - 1];
      SortByTimeMultiset(p);
      InsertByTimeMultiset(s[|s| - 1], SortByTime(p));
      assert s == p + [s[|s| - 1]];
    }
  }

  // ---------------------------------------------------------------------
  // Grouping

  /** The places a key puts in group `g`, in input order. */
  function GroupOf(places: seq<DayPlace>, key: DayPlace -> Option<int>, g: int): (r: seq<DayPlace>)
    ensures |r| <= |places|
    ensures forall x :: x in r <==> x in places && key(x) == Some(g)
    decreases |places|
  {
    if places == [] then []
    else
      var rest := GroupOf(places[..|places| - 1], key, g);
      var p := places[|places| - 1];
      assert forall x :: x in places <==> x in places[..|places| - 1] || x == p by {
        assert places == places[..|places| - 1] + [p];
      }
      if key(p) == Some(g) then rest + [p] else rest
  }

  /** The `forEach` that pushes each place onto the list of its group,
      creating the list on first use; `None` from the key skips the place. */
  method GroupBy(places: seq<DayPlace>, key: DayPlace -> Option<int>) returns (groups: map<int, seq<DayPlace>>)
    ensures forall g :: g in groups <==> exists k :: 0 <= k < |places| && key(places[k]) == Some(g)
    ensures forall g :: g in groups ==> groups[g] == GroupOf(places, key, g)
  {
    groups := map[];
    for i := 0 to |places|
      invariant forall g :: g in groups <==> exists k :: 0 <= k < i && key(places[k]) == Some(g)
      invariant forall g :: g in groups ==> groups[g] == GroupOf(places[..i], key, g)
    {
      var p := places[i];
      assert places[..i + 1][..i] == places[..i];
      assert places[..i + 1][i] == p;
      match key(p)
      case None =>
      case Some(g) =>
        if g !in groups {
          GroupOfEmpty(places[..i], key, g);
          groups := groups[g := []];
        }
        groups := groups[g := groups[g] + [p]];
    }
    assert places[..|places|] == places;
  }

  lemma GroupOfEmpty(places: seq<DayPlace>, key: DayPlace -> Option<int>, g: int)
    requires forall k :: 0 <= k < |places| ==> key(places[k]) != Some(g)
    ensures GroupOf(places, key, g) == []
  {
  }

  /** A place is in the group its key names and in no other, so the groups
      split the places that have a key. */
  lemma GroupsPartition(places: seq<DayPlace>, key: DayPlace -> Option<int>, x: DayPlace, g: int, h: int)
    requires x in GroupOf(places, key, g) && x in GroupOf(places, key, h)
    ensures g == h
  {
  }

  /** `routeSegments.find(...)` on the two ends of a leg. */
  function FindSegment(segs: seq<Segment>, fromId: string, toId: string): (r: Option<Segment>)
    ensures r.Some? ==> r.value in segs && r.value.fromPlaceId == fromId && r.value.toPlaceId == toId
    ensures r.None? <==> forall k :: 0 <= k < |segs| ==> !(segs[k].fromPlaceId == fromId && segs[k].toPlaceId == toId)
    decreases |segs|
  {
    if segs == [] then None
    else if segs[0].fromPlaceId == fromId && segs[0].toPlaceId == toId then Some(segs[0])
    else FindSegment(segs[1..], fromId, toId)
  }

  /** No leg before index `j` has those two ends. */
  predicate NoneBefore(segs: seq<Segment>, fromId: string, toId: string, j: int)
    requires j <= |segs|
  {
    forall k :: 0 <= k < j ==> !(segs[k].fromPlaceId == fromId && segs[k].toPlaceId == toId)
  }

  /** What is found is the first leg with those two ends. */
  lemma {:induction false} FindSegmentFirst(segs: seq<Segment>, fromId: string, toId: string)
    requires FindSegment(segs, fromId, toId).Some?
    ensures exists j :: 0 <= j < |segs| && segs[j] == FindSegment(segs, fromId, toId).value && NoneBefore(segs, fromId, toId, j)
    decreases |segs|
  {
    if segs[0].fromPlaceId == fromId && segs[0].toPlaceId == toId {
      assert segs[0] == FindSegment(segs, fromId, toId).value && NoneBefore(segs, fromId, toId, 0);
    } else {
      var tail := segs[1..];
      FindSegmentFirst(tail, fromId, toId);
      var j :| 0 <= j < |tail| && tail[j] == FindSegment(tail, fromId, toId).value && NoneBefore(tail, fromId, toId, j);
      assert segs[j + 1] == tail[j];
      assert forall k :: 1 <= k < j + 1 ==> segs[k] == tail[k - 1];
      assert NoneBefore(segs, fromId, toId, j + 1);
    }
  }
}
