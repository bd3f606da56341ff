/** The editable place list (components/PlaceList/PlaceList.tsx): day
    colours, what a finished drag does, and the earliest time a place can be
    visited after the leg that leads to it. */
module PlaceList {
  import opened Common
  import opened ScheduleTypes

  // ---------------------------------------------------------------------
  // Day colours

  /** The palette has seven entries. */
  const DAY_COLOR_COUNT: nat := 7

  /** `DAY_COLORS[(day - 1) % DAY_COLORS.length]`: the palette index, or
      `None` where JavaScript's remainder goes negative and the lookup is
      `undefined`. */
  function DayColorIndex(day: int): (r: Option<nat>)
    ensures r.Some? ==> r.value < DAY_COLOR_COUNT
    ensures day >= 1 ==> r == Some((day - 1) % DAY_COLOR_COUNT)
    ensures day < 1 ==> (r.Some? <==> (1 - day) % DAY_COLOR_COUNT == 0)
  {
    var k := TruncRem(day - 1, DAY_COLOR_COUNT);
    if k < 0 then None else Some(k)
  }

  /** From day 1 on, the colours repeat every seven days. */
  lemma DayColorsCycle(day: int)
    requires day >= 1
    ensures DayColorIndex(day + 7) == DayColorIndex(day)
  {
    assert (day + 7 - 1) % 7 == (day - 1) % 7;
  }

  // ---------------------------------------------------------------------
  // Earliest visit time

  /** `minTime` of the place at `index` in its day: the previous place's
      time plus the leg between them, hours wrapped at 24; none for the
      first place, when the previous place has no time, or when no leg
      joins the two. */
  function MinTime(dayPlaces: seq<DayPlace>, index: nat, segs: seq<Segment>): (r: Option<string>)
    requires index < |dayPlaces|
    ensures r.Some? <==>
      index > 0 && HasTime(dayPlaces[index - 1]) &&
      FindSegment(segs, dayPlaces[index - 1].placeId, dayPlaces[index].placeId).Some?
  {
    if index == 0 then None
    else
      var prev := dayPlaces[index - 1];
      match FindSegment(segs, prev.placeId, dayPlaces[index].placeId)
      case None => None
      case Some(leg) =>
        if HasTime(prev) then Some(ShiftClock(prev.visitTime.value, leg.durationMin, true)) else None
  }

  /** The earliest time is the previous time moved on by a leg from the
      previous place to this one: read back in minutes it is their sum
      within the day, and it is "NaN:NaN" when the previous time does not
      read. */
  lemma MinTimeFollowsLeg(dayPlaces: seq<DayPlace>, index: nat, segs: seq<Segment>)
    requires index < |dayPlaces| && MinTime(dayPlaces, index, segs).Some?
    ensures var prev := dayPlaces[index - 1];
      var leg := FindSegment(segs, prev.placeId, dayPlaces[index].placeId).value;
      var before := ClockMinutes(prev.visitTime.value);
      var t := MinTime(dayPlaces, index, segs).value;
      && leg in segs && leg.fromPlaceId == prev.placeId && leg.toPlaceId == dayPlaces[index].placeId
      && (before.Some? && before.value + leg.durationMin >= 0 ==> ClockMinutes(t) == Some((before.value + leg.durationMin) % 1440))
      && (before.None? ==> t == "NaN:NaN")
  {
    var prev := dayPlaces[index - 1];
    var leg := FindSegment(segs, prev.placeId, dayPlaces[index].placeId).value;
    var before := ClockMinutes(prev.visitTime.value);
    if before.Some? && before.value + leg.durationMin >= 0 {
      ShiftClockReadsBack(prev.visitTime.value, leg.durationMin, true);
    }
  }

  // ---------------------------------------------------------------------
  // Which day shows a day transition

  /** `dayTransitionOwnership["from-to"] || toDay`: the day that shows the
      leg from the last place of `fromDay` to the first of the next day. */
  function TransitionOwner(ownership: map<string, int>, fromDay: nat): (owner: int)
    ensures owner != 0
  {
    var key := NatToString(fromDay) + "-" + NatToString(fromDay + 1);
    if key in ownership && ownership[key] != 0 then ownership[key] else fromDay + 1
  }

  /** Shown below the origin day: owned by it and not past the last day. */
  predicate ShownAtOrigin(ownership: map<string, int>, fromDay: nat, totalDays: nat) {
    fromDay != totalDays && TransitionOwner(ownership, fromDay) == fromDay
  }

  /** Shown above the destination day: owned by it and not the first day. */
  predicate ShownAtDestination(ownership: map<string, int>, fromDay: nat) {
    fromDay + 1 > 1 && TransitionOwner(ownership, fromDay) == fromDay + 1
  }

  /** Between two listed days, a transition is shown at most once: at the
      origin or at the destination as its owner says, at the destination
      without an owner, and nowhere when the owner is some third day. */
  lemma TransitionShownOnce(ownership: map<string, int>, fromDay: nat, totalDays: nat)
    requires 1 <= fromDay < totalDays
    ensures !(ShownAtOrigin(ownership, fromDay, totalDays) && ShownAtDestination(ownership, fromDay))
    ensures ShownAtOrigin(ownership, fromDay, totalDays) || ShownAtDestination(ownership, fromDay) <==>
      TransitionOwner(ownership, fromDay) in {fromDay, fromDay + 1}
    ensures NatToString(fromDay) + "-" + NatToString(fromDay + 1) !in ownership ==> ShownAtDestination(ownership, fromDay)
  {
  }

  // ---------------------------------------------------------------------
  // JavaScript's parseInt, without a radix

  /** The white space and line terminators `parseInt` skips. */
  predicate JsSpace(c: char) {
    || c == '\t' || c == '\n' || c == '\U{000B}' || c == '\U{000C}' || c == '\r' || c == ' '
    || c == '\U{00A0}' || c == '\U{1680}' || ('\U{2000}' <= c <= '\U{200A}')
    || c == '\U{2028}' || c == '\U{2029}' || c == '\U{202F}' || c == '\U{205F}'
    || c == '\U{3000}' || c == '\U{FEFF}'
  }

  function TrimStart(s: string): (r: string)
    ensures |r| <= |s|
    ensures r != [] ==> !JsSpace(r[0])
    decreases |s|
  {
    if s != [] && JsSpace(s[0]) then TrimStart(s[1..]) else s
  }

  predicate HexDigit(c: char) {
    ('0' <= c <= '9') || ('a' <= c <= 'f') || ('A' <= c <= 'F')
  }

  function HexValue(c: char): (v: nat)
    requires HexDigit(c)
    ensures v < 16
  {
    if '0' <= c <= '9' then c as int - '0' as int
    else if 'a' <= c <= 'f' then c as int - 'a' as int + 10
    else c as int - 'A' as int + 10
  }

  /** The leading run of decimal digits. */
  function DecimalRun(s: string): (r: string)
    ensures IsDigits(r) && r <= s
    ensures r == s || !('0' <= s[|r|] <= '9')
    decreases |s|
  {
    if s != [] && '0' <= s[0] <= '9' then [s[0]] + DecimalRun(s[1..]) else []
  }

  /** The leading run of hexadecimal digits. */
  function HexRun(s: string): (r: string)
    ensures r <= s
    ensures forall k :: 0 <= k < |r| ==> HexDigit(r[k])
    decreases |s|
  {
    if s != [] && HexDigit(s[0]) then [s[0]] + HexRun(s[1..]) else []
  }

  function HexDigitsValue(s: string): nat
    requires forall k :: 0 <= k < |s| ==> HexDigit(s[k])
    decreases |s|
  {
    if s == [] then 0 else 16 * HexDigitsValue(s[..|s| - 1]) + HexValue(s[|s| - 1])
  }

  /** The digits after the sign: a `0x` or `0X` prefix switches to base 16;
      no digit at all is NaN (`None`). */
  function Magnitude(u: string): (r: Option<nat>)
    ensures r.None? <==> (if |u| >= 2 && u[0] == '0' && (u[1] == 'x' || u[1] == 'X') then HexRun(u[2..]) == [] else DecimalRun(u) == [])
  {
    if |u| >= 2 && u[0] == '0' && (u[1] == 'x' || u[1] == 'X') then
      var d := HexRun(u[2..]);
      if d == [] then None else Some(HexDigitsValue(d))
    else
      var d := DecimalRun(u);
      if d == [] then None else Some(DigitsValue(d))
  }

  /** `parseInt(s)`: leading white space skipped, one optional sign, then
      the longest run of digits; anything after it is ignored. NaN is
      `None`. */
  function ParseInt(s: string): (r: Option<int>)
  {
    var t := TrimStart(s);
    if t != [] && t[0] == '-' then
      match Magnitude(t[1..])
      case None => None
      case Some(v) => Some(-(v as int))
    else if t != [] && t[0] == '+' then
      match Magnitude(t[1..])
      case None => None
      case Some(v) => Some(v)
    else
      match Magnitude(t)
      case None => None
      case Some(v) => Some(v)
  }

  /** A run of digits is read whole. */
  lemma {:induction false} DecimalRunOfDigits(d: string)
    requires IsDigits(d)
    ensures DecimalRun(d) == d
    decreases |d|
  {
    if d != [] {
      DecimalRunOfDigits(d[1..]);
      assert [d[0]] + d[1..] == d;
    }
  }

  /** Printed digits read back, whatever non-digit follows them. */
  lemma ParseIntOfDigits(d: string, v: nat)
    requires IsDigits(d) && d != [] && DigitsValue(d) == v
    requires |d| >= 2 ==> d[0] != '0'
    ensures ParseInt(d) == Some(v)
  {
    assert !JsSpace(d[0]);
    DecimalRunOfDigits(d);
  }

  /** `parseInt(String(n))` is `n`. */
  lemma ParseIntReadsNat(n: nat)
    ensures ParseInt(NatToString(n)) == Some(n)
  {
    NatToStringRoundTrip(n);
    ParseIntOfDigits(NatToString(n), n);
  }

  /** Text with no digit at its head is NaN, `parseInt(undefined)` among
      it. */
  lemma ParseIntOfUndefined()
    ensures ParseInt("undefined") == None
  {
    assert !JsSpace('u');
    assert DecimalRun("undefined") == [];
  }

  // ---------------------------------------------------------------------
  // Drop targets

  /** `s.replace(pat, rep)` with a string pattern: the first occurrence
      only. */
  function ReplaceFirst(s: string, pat: string, rep: string): (r: string)
    requires pat != []
    decreases |s|
  {
    if StartsWith(s, pat) then rep + s[|pat|..]
    else if s == [] then []
    else [s[0]] + ReplaceFirst(s[1..], pat, rep)
  }

  /** A pattern that begins with a non-digit does not occur in digits. */
  lemma {:induction false} ReplaceInDigits(d: string, pat: string, rep: string)
    requires IsDigits(d) && pat != [] && !('0' <= pat[0] <= '9')
    ensures ReplaceFirst(d, pat, rep) == d
    decreases |d|
  {
    if d != [] {
      assert !StartsWith(d, pat) by {
        if |pat| <= |d| {
          assert d[..|pat|][0] == d[0];
        }
      }
      ReplaceInDigits(d[1..], pat, rep);
      assert [d[0]] + d[1..] == d;
    }
  }

  /** The ids the list gives its drop zones. */
  function DayHeaderId(day: nat): string {
    "day-" + NatToString(day)
  }

  function DayContentId(day: nat): string {
    "day-content-" + NatToString(day)
  }

  /** `over.id.startsWith("day-") || over.id.startsWith("day-content-")`. */
  predicate IsDayTarget(overId: string) {
    StartsWith(overId, "day-") || StartsWith(overId, "day-content-")
  }

  /** `overId.replace("day-", "").replace("content-", "")`. */
  function DayText(overId: string): string {
    ReplaceFirst(ReplaceFirst(overId, "day-", ""), "content-", "")
  }

  /** `parseInt` of that text: the day a drop zone names. */
  function TargetDay(overId: string): Option<int> {
    ParseInt(DayText(overId))
  }

  lemma ReplaceAtHead(pat: string, rest: string, rep: string)
    requires pat != []
    ensures StartsWith(pat + rest, pat)
    ensures ReplaceFirst(pat + rest, pat, rep) == rep + rest
  {
    assert (pat + rest)[..|pat|] == pat;
    assert (pat + rest)[|pat|..] == rest;
  }

  /** Both drop zones of a day are read back as that day. */
  lemma DropZonesNameTheirDay(day: nat)
    ensures IsDayTarget(DayHeaderId(day)) && TargetDay(DayHeaderId(day)) == Some(day)
    ensures IsDayTarget(DayContentId(day)) && TargetDay(DayContentId(day)) == Some(day)
  {
    HeaderNamesItsDay(day);
    ContentNamesItsDay(day);
  }

  lemma HeaderNamesItsDay(day: nat)
    ensures IsDayTarget(DayHeaderId(day)) && TargetDay(DayHeaderId(day)) == Some(day)
  {
    HeaderText(NatToString(day));
    ParseIntReadsNat(day);
  }

  lemma ContentNamesItsDay(day: nat)
    ensures IsDayTarget(DayContentId(day)) && TargetDay(DayContentId(day)) == Some(day)
  {
    ContentText(NatToString(day));
    ParseIntReadsNat(day);
  }

  lemma HeaderText(d: string)
    requires IsDigits(d)
    ensures IsDayTarget("day-" + d) && DayText("day-" + d) == d
  {
    ReplaceAtHead("day-", d, "");
    assert "" + d == d;
    ReplaceInDigits(d, "content-", "");
    assert ("day-" + d)[..4] == "day-";
  }

  lemma ContentText(d: string)
    requires IsDigits(d)
    ensures IsDayTarget("day-content-" + d) && DayText("day-content-" + d) == d
  {
    var rest := "content-" + d;
    assert "day-content-" + d == "day-" + rest;
    ContentParts("day-" + rest, rest, d);
  }

  /** The two replacements peel the two prefixes off in turn. */
  lemma ContentParts(s: string, rest: string, d: string)
    requires s == "day-" + rest && rest == "content-" + d
    ensures IsDayTarget(s) && DayText(s) == d
  {
    ReplaceAtHead("day-", rest, "");
    assert "" + rest == rest;
    ReplaceAtHead("content-", d, "");
    assert "" + d == d;
  }

  /** The id of the handle that shows the leg from one day to the next. */
  function TransitionId(fromDay: nat, toDay: nat): string {
    "transition-" + NatToString(fromDay) + "-" + NatToString(toDay)
  }

  /** `array[k]`, `undefined` past the end. */
  function PartOr(parts: seq<string>, k: nat): string {
    if k < |parts| then parts[k] else "undefined"
  }

  lemma SplitHead(a: string, rest: string, sep: char)
    requires sep !in a
    ensures SplitOn(a + [sep] + rest, sep) == [a] + SplitOn(rest, sep)
    decreases |a|
  {
    var s := a + [sep] + rest;
    if a == [] {
      assert s[1..] == rest;
    } else {
      assert s[0] == a[0] && s[1..] == a[1..] + [sep] + rest;
      SplitHead(a[1..], rest, sep);
      assert [a[0]] + a[1..] == a;
    }
  }

  /** `const [_, fromDayStr, toDayStr] = id.split("-")`, each part through
      `parseInt`. */
  function TransitionDays(activeId: string): (r: (Option<int>, Option<int>)) {
    var parts := SplitOn(activeId, '-');
    (ParseInt(PartOr(parts, 1)), ParseInt(PartOr(parts, 2)))
  }

  /** A transition handle's id reads back as its two days. */
  lemma TransitionIdNamesItsDays(fromDay: nat, toDay: nat)
    ensures StartsWith(TransitionId(fromDay, toDay), "transition-")
    ensures TransitionDays(TransitionId(fromDay, toDay)) == (Some(fromDay), Some(toDay))
  {
    var a := NatToString(fromDay);
    var b := NatToString(toDay);
    assert TransitionId(fromDay, toDay) == "transition" + ['-'] + (a + ['-'] + b);
    assert TransitionId(fromDay, toDay)[..11] == "transition-";
    assert '-' !in a && '-' !in b;
    SplitHead("transition", a + ['-'] + b, '-');
    SplitJoined(a, b, '-');
    ParseIntReadsNat(fromDay);
    ParseIntReadsNat(toDay);
  }

  // ---------------------------------------------------------------------
  // Reordering

  /** `arrayMove(array, from, to)` of dnd-kit: take the element out, then
      splice it in at `to`, where a negative `to` counts from the end of
      the original length, which puts it last. */
  function ArrayMove<T>(s: seq<T>, from: nat, to: int): (r: seq<T>)
    requires from < |s| && -1 <= to < |s|
    ensures |r| == |s| && r[MoveTarget(s, to)] == s[from]
    ensures r[..MoveTarget(s, to)] + r[MoveTarget(s, to) + 1..] == s[..from] + s[from + 1..]
    ensures multiset(r) == multiset(s)
  {
    var rest := s[..from] + s[from + 1..];
    var at := MoveTarget(s, to);
    var r := rest[..at] + [s[from]] + rest[at..];
    SpliceIn(rest, s[from], at);
    TakeOut(s, from);
    r
  }

  /** Putting `x` in at `at` keeps the rest around it, adding `x` once. */
  lemma SpliceIn<T>(rest: seq<T>, x: T, at: nat)
    requires at <= |rest|
    ensures var r := rest[..at] + [x] + rest[at..];
      r[..at] == rest[..at] && r[at + 1..] == rest[at..] && r[at] == x &&
      r[..at] + r[at + 1..] == rest && multiset(r) == multiset(rest) + multiset{x}
  {
    var r := rest[..at] + [x] + rest[at..];
    assert r[..at] == rest[..at] && r[at + 1..] == rest[at..];
    assert rest[..at] + rest[at..] == rest;
  }

  /** Taking out the element at `from` removes it once. */
  lemma TakeOut<T>(s: seq<T>, from: nat)
    requires from < |s|
    ensures multiset(s[..from] + s[from + 1..]) + multiset{s[from]} == multiset(s)
  {
    assert s == s[..from] + [s[from]] + s[from + 1..];
  }

  /** Where the moved element lands. */
  function MoveTarget<T>(s: seq<T>, to: int): (at: nat)
    requires |s| > 0 && -1 <= to < |s|
    ensures at < |s|
    ensures to >= 0 ==> at == to
  {
    if to < 0 then |s| - 1 else to
  }

  /** Moving the element back to where it came from restores the list. */
  lemma ArrayMoveBack<T>(s: seq<T>, from: nat, to: int)
    requires from < |s| && -1 <= to < |s|
    ensures ArrayMove(ArrayMove(s, from, to), MoveTarget(s, to), from) == s
  {
    var r := ArrayMove(s, from, to);
    var at := MoveTarget(s, to);
    var back := ArrayMove(r, at, from);
    assert back[from] == s[from];
    assert back[..from] + back[from + 1..] == s[..from] + s[from + 1..];
    SpliceEqual(back, s, from);
  }

  /** Two lists of one length that agree at `k` and without `k` agree. */
  lemma SpliceEqual<T>(a: seq<T>, b: seq<T>, k: nat)
    requires |a| == |b| && k < |a| && a[k] == b[k]
    requires a[..k] + a[k + 1..] == b[..k] + b[k + 1..]
    ensures a == b
  {
    forall i | 0 <= i < |a|
      ensures a[i] == b[i]
    {
      if i < k {
        assert a[i] == (a[..k] + a[k + 1..])[i];
        assert b[i] == (b[..k] + b[k + 1..])[i];
      } else if i > k {
        assert a[i] == (a[..k] + a[k + 1..])[i - 1];
        assert b[i] == (b[..k] + b[k + 1..])[i - 1];
      }
    }
  }

  /** `places.findIndex(p => p.id === id)`: -1 when there is none. */
  function FindIndex(places: seq<DayPlace>, id: string): (r: int)
    ensures -1 <= r < |places|
    ensures r >= 0 ==> places[r].id == id && forall k :: 0 <= k < r ==> places[k].id != id
    ensures r == -1 <==> forall k :: 0 <= k < |places| ==> places[k].id != id
    decreases |places|
  {
    if places == [] then -1
    else if places[0].id == id then 0
    else
      var k := FindIndex(places[1..], id);
      if k < 0 then -1 else k + 1
  }

  /** `targetPlace && targetPlace.day`: the day the dragged place takes,
      when the drop lands on a place with a (non-zero) day. */
  function TakenDay(places: seq<DayPlace>, newIndex: int): (r: Option<int>)
    requires -1 <= newIndex < |places|
    ensures r.Some? <==> newIndex >= 0 && places[newIndex].day.Some? && places[newIndex].day.value != 0
    ensures r.Some? ==> r == places[newIndex].day
  {
    if newIndex >= 0 && places[newIndex].day.Some? && places[newIndex].day.value != 0 then places[newIndex].day else None
  }

  /** `reorderedPlaces.map(...)`: order `index + 1`, and the dragged place
      takes the target's day when there is one. */
  function Renumber(moved: seq<DayPlace>, activeId: string, day: Option<int>): (r: seq<DayPlace>)
    ensures |r| == |moved|
    ensures forall k :: 0 <= k < |r| ==> r[k].order == (k + 1) as real
    ensures forall k :: 0 <= k < |r| && (moved[k].id != activeId || day.None?) ==> r[k] == moved[k].(order := (k + 1) as real)
    ensures forall k :: 0 <= k < |r| && moved[k].id == activeId && day.Some? ==> r[k] == moved[k].(order := (k + 1) as real, day := day)
  {
    seq(|moved|, k requires 0 <= k < |moved| =>
      var p := moved[k].(order := (k + 1) as real);
      if p.id == activeId && day.Some? then p.(day := day) else p)
  }

  // ---------------------------------------------------------------------
  // Ending a drag

  /** What a finished drag asks of the page. Days are `parseInt` results,
      NaN as `None`. */
  datatype DragOutcome =
    | NoOp
    | ToggleTransition(fromDay: Option<int>, toDay: Option<int>)
    | MoveToDay(placeId: string, day: Option<int>)
    | Reorder(places: seq<DayPlace>)

  /** `===` on numbers that may be NaN or `undefined` (`None`): never
      equal to anything. */
  predicate JsEq(a: Option<int>, b: Option<int>) {
    a.Some? && b.Some? && a.value == b.value
  }

  /** `handleDragEnd`. `canToggle` and `canChangeDay` say whether the
      optional callbacks were passed. */
  function HandleDragEnd(places: seq<DayPlace>, activeId: string, overId: Option<string>, canToggle: bool, canChangeDay: bool): (r: DragOutcome)
    ensures overId.None? ==> r == NoOp
    ensures r.ToggleTransition? <==>
      overId.Some? && StartsWith(activeId, "transition-") && IsDayTarget(overId.value) && canToggle &&
      (JsEq(TargetDay(overId.value), TransitionDays(activeId).0) || JsEq(TargetDay(overId.value), TransitionDays(activeId).1))
    ensures r.ToggleTransition? ==> (r.fromDay, r.toDay) == TransitionDays(activeId)
    ensures r.MoveToDay? <==>
      overId.Some? && !StartsWith(activeId, "transition-") && FindIndex(places, activeId) >= 0 &&
      IsDayTarget(overId.value) && canChangeDay && !JsEq(places[FindIndex(places, activeId)].day, TargetDay(overId.value))
    ensures r.MoveToDay? ==> r.placeId == activeId && r.day == TargetDay(overId.value)
    ensures r.Reorder? <==>
      overId.Some? && !StartsWith(activeId, "transition-") && FindIndex(places, activeId) >= 0 &&
      !IsDayTarget(overId.value) && activeId != overId.value
    ensures r.Reorder? ==>
      var newIndex := FindIndex(places, overId.value);
      r.places == Renumber(ArrayMove(places, FindIndex(places, activeId), newIndex), activeId, TakenDay(places, newIndex))
  {
    if overId.None? then NoOp
    else
      var over := overId.value;
      if StartsWith(activeId, "transition-") then
        var days := TransitionDays(activeId);
        if IsDayTarget(over) then
          var target := TargetDay(over);
          if (JsEq(target, days.0) || JsEq(target, days.1)) && canToggle then ToggleTransition(days.0, days.1)
          else NoOp
        else NoOp
      else
        var oldIndex := FindIndex(places, activeId);
        if oldIndex < 0 then NoOp
        else if IsDayTarget(over) then
          var target := TargetDay(over);
          if canChangeDay && !JsEq(places[oldIndex].day, target) then MoveToDay(activeId, target) else NoOp
        else if activeId != over then
          var newIndex := FindIndex(places, over);
          Reorder(Renumber(ArrayMove(places, oldIndex, newIndex), activeId, TakenDay(places, newIndex)))
        else NoOp
  }

  /** Dropping a place on a zone of the day it is already in changes
      nothing. */
  lemma DropOnOwnDayDoesNothing(places: seq<DayPlace>, k: nat, day: nat, canToggle: bool, canChangeDay: bool)
    requires k < |places| && places[k].day == Some(day) && FindIndex(places, places[k].id) == k
    requires !StartsWith(places[k].id, "transition-")
    ensures HandleDragEnd(places, places[k].id, Some(DayHeaderId(day)), canToggle, canChangeDay) == NoOp
    ensures HandleDragEnd(places, places[k].id, Some(DayContentId(day)), canToggle, canChangeDay) == NoOp
  {
    DropZonesNameTheirDay(day);
  }

  /** A transition handle dropped on either of its own days toggles that
      transition; on any other day it does nothing. */
  lemma TransitionToggleDays(places: seq<DayPlace>, fromDay: nat, toDay: nat, day: nat, canChangeDay: bool)
    ensures var r := HandleDragEnd(places, TransitionId(fromDay, toDay), Some(DayHeaderId(day)), true, canChangeDay);
      (day == fromDay || day == toDay ==> r == ToggleTransition(Some(fromDay), Some(toDay))) &&
      (day != fromDay && day != toDay ==> r == NoOp)
  {
    TransitionIdNamesItsDays(fromDay, toDay);
    DropZonesNameTheirDay(day);
  }

  /** A reorder emits every place once, numbered 1..n, with the dragged
      place where it was dropped (last when dropped on no place) and only
      the dragged place's day changed. */
  lemma ReorderFacts(places: seq<DayPlace>, activeId: string, overId: string, canToggle: bool, canChangeDay: bool)
    requires HandleDragEnd(places, activeId, Some(overId), canToggle, canChangeDay).Reorder?
    ensures var out := HandleDragEnd(places, activeId, Some(overId), canToggle, canChangeDay).places;
      var oldIndex := FindIndex(places, activeId);
      var at := MoveTarget(places, FindIndex(places, overId));
      && |out| == |places|
      && (forall k :: 0 <= k < |out| ==> out[k].order == (k + 1) as real)
      && out[at].id == activeId
      && (FindIndex(places, overId) >= 0 ==> at == FindIndex(places, overId))
      && (FindIndex(places, overId) < 0 ==> at == |places| - 1)
      && (forall k :: 0 <= k < |out| && out[k].id != activeId ==> out[k].day == ArrayMove(places, oldIndex, FindIndex(places, overId))[k].day)
  {
  }
}
