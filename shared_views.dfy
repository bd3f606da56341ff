/** The shared-trip endpoints (backend/apps/trips/shared_views.py): a trip
    is reached by its share id only while it is shared; the `days` query
    parameter is read as Python's `int()` reads it and checked against the
    trip's length; and a signed-in visitor joins the trip as an editor, once. */
module SharedViews {
  import opened Common
  import opened TripModels
  import opened TripPermissions

  datatype SharedError =
    | NotAuthenticated   // `members` is behind IsAuthenticated
    | NotFound           // no shared trip has that share id
    | MultipleFound      // `objects.get` matched more than one row
    | DayRequired        // the day parameter is absent or empty
    | DayNotInteger      // `int(day_param)` raised
    | DayOutOfRange      // outside 1..total_days

  /** The sharing columns of a trip row (the Trip model as given declares
      neither, the views use both). */
  datatype ShareRow = ShareRow(trip: Trip, shareId: Option<string>, isShared: bool)

  /** The rows `Trip.objects.get(share_id=..., is_shared=True)` matches. */
  function SharedMatches(rows: seq<ShareRow>, shareId: string): (r: seq<Trip>)
    ensures |r| <= |rows|
    ensures |r| == 0 <==> forall k :: 0 <= k < |rows| ==> !(rows[k].shareId == Some(shareId) && rows[k].isShared)
    ensures forall t :: t in r <==> exists k :: 0 <= k < |rows| && rows[k].trip == t && rows[k].shareId == Some(shareId) && rows[k].isShared
    decreases |rows|
  {
    if rows == [] then []
    else
      var rest := SharedMatches(rows[..|rows| - 1], shareId);
      var x := rows[|rows| - 1];
      assert forall k :: 0 <= k < |rows| - 1 ==> rows[..|rows| - 1][k] == rows[k];
      if x.shareId == Some(shareId) && x.isShared then rest + [x.trip] else rest
  }

  /** `get_object`: exactly one shared row with that share id, or NotFound. */
  function GetShared(rows: seq<ShareRow>, shareId: string): (r: Result<Trip, SharedError>)
    ensures r.Ok? ==> exists k :: 0 <= k < |rows| && rows[k].trip == r.value && rows[k].shareId == Some(shareId) && rows[k].isShared
    ensures r == Err(NotFound) <==> forall k :: 0 <= k < |rows| ==> !(rows[k].shareId == Some(shareId) && rows[k].isShared)
    ensures |SharedMatches(rows, shareId)| == 1 ==> r == Ok(SharedMatches(rows, shareId)[0])
    ensures |SharedMatches(rows, shareId)| > 1 ==> r == Err(MultipleFound)
  {
    var ts := SharedMatches(rows, shareId);
    if |ts| == 0 then Err(NotFound)
    else if |ts| == 1 then (assert ts[0] in ts; Ok(ts[0]))
    else Err(MultipleFound)
  }

  /** With share ids unique, which `objects.get` takes for granted, a
      shared row is the one match for its share id. */
  lemma {:induction false} SharedMatchesUnique(rows: seq<ShareRow>, k: nat, shareId: string)
    requires k < |rows| && rows[k].shareId == Some(shareId) && rows[k].isShared
    requires forall j :: 0 <= j < |rows| && j != k ==> rows[j].shareId != Some(shareId)
    ensures SharedMatches(rows, shareId) == [rows[k].trip]
    decreases |rows|
  {
    var front := rows[..|rows| - 1];
    if k == |rows| - 1 {
      assert forall j :: 0 <= j < |front| ==> front[j] == rows[j];
      assert SharedMatches(front, shareId) == [];
    } else {
      assert forall j :: 0 <= j < |front| ==> front[j] == rows[j];
      SharedMatchesUnique(front, k, shareId);
    }
  }

  /** With unique share ids `get_object` never raises MultipleFound: a shared
      trip is found by its share id, and that trip is the one answered. */
  lemma GetSharedFindsRow(rows: seq<ShareRow>, k: nat, shareId: string)
    requires k < |rows| && rows[k].shareId == Some(shareId) && rows[k].isShared
    requires forall j :: 0 <= j < |rows| && j != k ==> rows[j].shareId != Some(shareId)
    ensures GetShared(rows, shareId) == Ok(rows[k].trip)
  {
    SharedMatchesUnique(rows, k, shareId);
  }

  /** Unsharing a trip makes it unreachable by its share id. */
  lemma UnsharedIsNotFound(rows: seq<ShareRow>, k: nat, shareId: string)
    requires k < |rows| && forall j :: 0 <= j < |rows| && j != k ==> rows[j].shareId != Some(shareId)
    ensures GetShared(rows[k := rows[k].(isShared := false)], shareId) == Err(NotFound)
  {
    var rows' := rows[k := rows[k].(isShared := false)];
    forall j | 0 <= j < |rows'|
      ensures !(rows'[j].shareId == Some(shareId) && rows'[j].isShared)
    {
      if j != k {
        assert rows'[j] == rows[j];
      }
    }
  }

  // ---------------------------------------------------------------------
  // Python's int() on a query string

  /** The characters `int()` strips as white space (`str.isspace()`): tab
      to carriage return, the four separators U+001C..U+001F, space, next
      line, no-break space, the ogham mark, the Unicode spaces
      U+2000..U+200A, the line and paragraph separators, the narrow and
      mathematical spaces and the ideographic space. */
  predicate PySpace(c: char) {
    || '\t' <= c <= '\r'
    || '\U{001C}' <= c <= ' '
    || c == '\U{0085}' || c == '\U{00A0}' || c == '\U{1680}'
    || '\U{2000}' <= c <= '\U{200A}'
    || c == '\U{2028}' || c == '\U{2029}' || c == '\U{202F}' || c == '\U{205F}' || c == '\U{3000}'
  }

  predicate IsDigit(c: char) {
    '0' <= c <= '9'
  }

  function TrimLeft(s: string): (r: string)
    ensures |r| <= |s|
    ensures r != [] ==> !PySpace(r[0])
    decreases |s|
  {
    if s != [] && PySpace(s[0]) then TrimLeft(s[1..]) else s
  }

  function TrimRight(s: string): (r: string)
    ensures |r| <= |s|
    ensures r != [] ==> !PySpace(r[|r| - 1])
    decreases |s|
  {
    if s != [] && PySpace(s[|s| - 1]) then TrimRight(s[..|s| - 1]) else s
  }

  /** Digits, with single underscores allowed between two digits. */
  predicate DigitGroups(s: string) {
    && s != [] && IsDigit(s[0]) && IsDigit(s[|s| - 1])
    && (forall i :: 0 <= i < |s| ==> IsDigit(s[i]) || s[i] == '_')
    && (forall i :: 0 <= i < |s| - 1 ==> !(s[i] == '_' && s[i + 1] == '_'))
  }

  /** The digits of a run of digits and underscores. */
  function DropUnderscores(s: string): (r: string)
    requires forall i :: 0 <= i < |s| ==> IsDigit(s[i]) || s[i] == '_'
    ensures IsDigits(r)
    ensures IsDigits(s) ==> r == s
    decreases |s|
  {
    if s == [] then []
    else if s[|s| - 1] == '_' then DropUnderscores(s[..|s| - 1])
    else
      assert IsDigits(s) ==> IsDigits(s[..|s| - 1]) && s == s[..|s| - 1] + [s[|s| - 1]];
      DigitsSnoc(DropUnderscores(s[..|s| - 1]), s[|s| - 1]);
      DropUnderscores(s[..|s| - 1]) + [s[|s| - 1]]
  }

  lemma DigitsSnoc(p: string, c: char)
    requires IsDigits(p) && IsDigit(c)
    ensures IsDigits(p + [c])
  {
    var r := p + [c];
    forall i | 0 <= i < |r|
      ensures '0' <= r[i] <= '9'
    {
      if i < |p| {
        assert r[i] == p[i];
      }
    }
  }

  /** The value of a run of digit groups, or `None` when it is not one. */
  function GroupsValue(body: string): (r: Option<nat>)
    ensures r.Some? <==> DigitGroups(body)
  {
    if DigitGroups(body) then Some(DigitsValue(DropUnderscores(body))) else None
  }

  /** The sign of `int()`'s argument applied to its digits' value. */
  function Signed(neg: bool, v: Option<nat>): (r: Option<int>)
    ensures r.Some? <==> v.Some?
    ensures r.Some? ==> r.value == if neg then -(v.value as int) else v.value as int
  {
    match v
    case None => None
    case Some(n) => Some(if neg then -(n as int) else n as int)
  }

  /** `int(s)` for a string, base 10: surrounding white space, an optional
      sign, and digit groups; `None` where Python raises ValueError. */
  function PyInt(s: string): (r: Option<int>)
  {
    var t := TrimRight(TrimLeft(s));
    if t == [] then None
    else if t[0] == '-' then Signed(true, GroupsValue(t[1..]))
    else if t[0] == '+' then Signed(false, GroupsValue(t[1..]))
    else Signed(false, GroupsValue(t))
  }

  /** A run of digits is read as its decimal value. */
  lemma GroupsValueOfDigits(s: string)
    requires s != [] && IsDigits(s)
    ensures GroupsValue(s) == Some(DigitsValue(s))
  {
    assert DigitGroups(s);
  }

  /** A string that starts and ends with a non-space is its own strip. */
  lemma TrimNothing(s: string)
    requires s != [] && !PySpace(s[0]) && !PySpace(s[|s| - 1])
    ensures TrimRight(TrimLeft(s)) == s
  {
    assert TrimLeft(s) == s;
  }

  /** Unsigned text with a digit at each end is read as digit groups. */
  lemma PyIntOfUnsigned(d: string)
    requires d != [] && IsDigit(d[0]) && IsDigit(d[|d| - 1])
    ensures PyInt(d) == Signed(false, GroupsValue(d))
  {
    TrimNothing(d);
  }

  /** `int()` of a run of digits is its decimal value. */
  lemma PyIntOfDigits(d: string, v: nat)
    requires d != [] && IsDigits(d) && DigitsValue(d) == v
    ensures PyInt(d) == Some(v)
  {
    PyIntOfUnsigned(d);
    GroupsValueOfDigits(d);
  }

  /** A minus sign before digits is read as the negated digits. */
  lemma PyIntOfMinus(d: string)
    requires d != [] && IsDigit(d[|d| - 1])
    ensures PyInt("-" + d) == Signed(true, GroupsValue(d))
  {
    var s := "-" + d;
    assert s[1..] == d && s[|s| - 1] == d[|d| - 1];
    TrimNothing(s);
  }

  /** `int()` of a minus sign and a run of digits is minus their value. */
  lemma PyIntOfNegatedDigits(d: string, v: nat)
    requires d != [] && IsDigits(d) && DigitsValue(d) == v
    ensures PyInt("-" + d) == Some(-(v as int))
  {
    GroupsValueOfDigits(d);
    MinusOfValue(d, v);
  }

  lemma MinusOfValue(d: string, v: nat)
    requires d != [] && IsDigit(d[|d| - 1]) && GroupsValue(d) == Some(v)
    ensures PyInt("-" + d) == Some(-(v as int))
  {
    PyIntOfMinus(d);
  }

  /** `int()` strips any of its white space before the digits, the
      no-break and ideographic spaces included. */
  lemma PyIntSkipsSpace(c: char, d: string, v: nat)
    requires PySpace(c) && d != [] && IsDigits(d) && DigitsValue(d) == v
    ensures PyInt([c] + d) == Some(v)
  {
    var s := [c] + d;
    assert s[1..] == d;
    assert TrimLeft(s) == TrimLeft(d);
    PyIntOfDigits(d, v);
    TrimNothing(d);
  }

  /** Reading back an integer printed in decimal gives it again. */
  lemma PyIntReadsDecimal(i: int)
    ensures PyInt(IntToString(i)) == Some(i)
  {
    var n: nat := if i < 0 then -i else i;
    NatToStringRoundTrip(n);
    if i < 0 {
      PyIntOfNegatedDigits(NatToString(n), n);
    } else {
      PyIntOfDigits(NatToString(n), n);
    }
  }

  // ---------------------------------------------------------------------
  // days

  /** `days`: the shared trip, then the parameter present and non-empty,
      then an integer, then within 1..total_days; the result names the trip
      and the day the day-detail serializer is given.

      The lookup comes first, so a bad share id is NotFound whatever the
      parameter. */
  function Days(rows: seq<ShareRow>, shareId: string, dayParam: Option<string>): (r: Result<(Trip, int), SharedError>)
    ensures GetShared(rows, shareId).Err? ==> r == Err(GetShared(rows, shareId).error)
    ensures GetShared(rows, shareId).Ok? ==>
      ((dayParam.None? || dayParam.value == "") ==> r == Err(DayRequired)) &&
      (dayParam.Some? && dayParam.value != "" && PyInt(dayParam.value).None? ==> r == Err(DayNotInteger))
    ensures r.Ok? <==>
      GetShared(rows, shareId).Ok? && dayParam.Some? && dayParam.value != "" && PyInt(dayParam.value).Some? &&
      1 <= PyInt(dayParam.value).value <= GetShared(rows, shareId).value.totalDays
    ensures r.Ok? ==> r.value == (GetShared(rows, shareId).value, PyInt(dayParam.value).value)
    ensures r.Ok? ==> 1 <= r.value.1 <= r.value.0.totalDays
  {
    match GetShared(rows, shareId)
    case Err(e) => Err(e)
    case Ok(trip) =>
      if dayParam.None? || dayParam.value == "" then Err(DayRequired)
      else match PyInt(dayParam.value)
        case None => Err(DayNotInteger)
        case Some(day) =>
          if day < 1 || day > trip.totalDays then Err(DayOutOfRange) else Ok((trip, day))
  }

  /** Every day of a shared trip can be asked for by its decimal number, and
      no other number is accepted. */
  lemma DaysAcceptsEachDay(rows: seq<ShareRow>, shareId: string, day: int)
    requires GetShared(rows, shareId).Ok?
    ensures Days(rows, shareId, Some(IntToString(day))).Ok? <==> 1 <= day <= GetShared(rows, shareId).value.totalDays
  {
    PyIntReadsDecimal(day);
  }

  // ---------------------------------------------------------------------
  // members: joining through the share link

  const ALREADY_MEMBER_MESSAGE: string := "이미 이 여행의 멤버입니다."
  const JOINED_MESSAGE: string := "여행에 참여했습니다."

  datatype JoinReply = JoinReply(tripId: TripId, message: string, role: Role, isNewMember: bool)

  /** The membership table after `user` joins `trip`: unchanged for a member,
      else one editor row more. */
  function Joined(ms: seq<Member>, trip: TripId, user: UserId, id: int): (r: seq<Member>)
    ensures RoleOf(ms, trip, user).Some? ==> r == ms
    ensures RoleOf(ms, trip, user).None? ==> r == ms + [Member(id, trip, user, Editor)]
    ensures RoleOf(r, trip, user).Some?
  {
    if RoleOf(ms, trip, user).Some? then ms
    else
      assert (ms + [Member(id, trip, user, Editor)])[|ms|].trip == trip;
      ms + [Member(id, trip, user, Editor)]
  }

  /** The reply to a join: the existing role, or editor for a new member. */
  function JoinReplyOf(ms: seq<Member>, trip: TripId, user: UserId): (r: JoinReply)
    ensures r.tripId == trip
    ensures r.isNewMember <==> RoleOf(ms, trip, user).None?
    ensures r.role == RoleOf(ms, trip, user).GetOr(Editor)
    ensures r.message == if r.isNewMember then JOINED_MESSAGE else ALREADY_MEMBER_MESSAGE
  {
    match RoleOf(ms, trip, user)
    case Some(role) => JoinReply(trip, ALREADY_MEMBER_MESSAGE, role, false)
    case None => JoinReply(trip, JOINED_MESSAGE, Editor, true)
  }

  /** The role a member already has is the role of their first row. */
  lemma RoleOfSnocOther(ms: seq<Member>, m: Member, trip: TripId, user: UserId)
    requires RoleOf(ms, trip, user).Some?
    ensures RoleOf(ms + [m], trip, user) == RoleOf(ms, trip, user)
  {
    FindMemberPrefix(ms, m, trip, user);
  }

  lemma {:induction false} FindMemberPrefix(ms: seq<Member>, m: Member, trip: TripId, user: UserId)
    requires FindMember(ms, trip, user).Some?
    ensures FindMember(ms + [m], trip, user) == FindMember(ms, trip, user)
    decreases |ms|
  {
    if !(ms[0].trip == trip && ms[0].user == user) {
      assert (ms + [m])[1..] == ms[1..] + [m];
      FindMemberPrefix(ms[1..], m, trip, user);
    }
  }

  /** Joining twice is joining once: the second join adds no row and
      reports the role the first one gave, as an existing member. */
  lemma JoinIdempotent(ms: seq<Member>, trip: TripId, user: UserId, id: int, id': int)
    ensures Joined(Joined(ms, trip, user, id), trip, user, id') == Joined(ms, trip, user, id)
    ensures var again := JoinReplyOf(Joined(ms, trip, user, id), trip, user);
      !again.isNewMember && again.role == JoinReplyOf(ms, trip, user).role
  {
    var ms' := Joined(ms, trip, user, id);
    if RoleOf(ms, trip, user).None? {
      var k := FindMember(ms', trip, user).value;
      assert k == |ms|;
    }
  }

  /** A join never changes or removes an existing membership row. */
  lemma JoinKeepsRows(ms: seq<Member>, trip: TripId, user: UserId, id: int)
    ensures |Joined(ms, trip, user, id)| <= |ms| + 1
    ensures Joined(ms, trip, user, id)[..|ms|] == ms
  {
  }

  class SharedDb {
    var shares: seq<ShareRow>
    var members: seq<Member>
    var nextMemberId: int

    ghost predicate Valid()
      reads this
    {
      UniqueMembership(members) && forall k :: 0 <= k < |members| ==> members[k].id < nextMemberId
    }

    constructor(rows: seq<ShareRow>)
      ensures Valid() && shares == rows && members == [] && nextMemberId == 1
    {
      shares := rows;
      members := [];
      nextMemberId := 1;
    }

    /** `members` (POST): sign-in, then the shared trip, then the join. */
    method Join(user: Option<UserId>, shareId: string) returns (r: Result<JoinReply, SharedError>)
      requires Valid()
      modifies this
      ensures Valid()
      ensures shares == old(shares)
      ensures user.None? ==> r == Err(NotAuthenticated)
      ensures user.Some? && GetShared(shares, shareId).Err? ==> r == Err(GetShared(shares, shareId).error)
      ensures r.Ok? <==> user.Some? && GetShared(shares, shareId).Ok?
      ensures r.Err? ==> members == old(members) && nextMemberId == old(nextMemberId)
      ensures r.Ok? ==> (user.Some? && GetShared(shares, shareId).Ok? &&
        var trip := GetShared(shares, shareId).value.id;
        r.value == JoinReplyOf(old(members), trip, user.value) &&
        members == Joined(old(members), trip, user.value, old(nextMemberId)) &&
        nextMemberId == old(nextMemberId) + (if r.value.isNewMember then 1 else 0))
    {
      if user.None? {
        return Err(NotAuthenticated);
      }
      var found := GetShared(shares, shareId);
      if found.Err? {
        return Err(found.error);
      }
      var trip := found.value.id;
      var u := user.value;
      r := Ok(JoinReplyOf(members, trip, u));
      if RoleOf(members, trip, u).None? {
        JoinKeepsValid(members, nextMemberId, Member(nextMemberId, trip, u, Editor));
        members := members + [Member(nextMemberId, trip, u, Editor)];
        nextMemberId := nextMemberId + 1;
      }
    }
  }

  lemma JoinKeepsValid(ms: seq<Member>, next: int, m: Member)
    requires UniqueMembership(ms) && (forall k :: 0 <= k < |ms| ==> ms[k].id < next)
    requires m.id == next && RoleOf(ms, m.trip, m.user).None?
    ensures UniqueMembership(ms + [m]) && forall k :: 0 <= k < |ms + [m]| ==> (ms + [m])[k].id < next + 1
  {
    var ms' := ms + [m];
    forall i, j | 0 <= i < j < |ms'|
      ensures (ms'[i].trip, ms'[i].user) != (ms'[j].trip, ms'[j].user)
    {
      if j == |ms| {
        assert ms'[i] == ms[i];
      }
    }
  }
}
