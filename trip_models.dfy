/** The Trip and TripMember rows (backend/apps/trips/models.py): the stored
    route totals and how they are reported, and the membership roles. */
module TripModels {
  import opened Common
  import opened EventModel
  import opened RouteRows

  type TripId = int
  type UserId = int

  const DEFAULT_TOTAL_DAYS: int := 1

  datatype Trip = Trip(
    id: TripId,
    title: string,
    city: string,
    startLat: real,
    startLng: real,
    startDate: Option<string>,
    totalDays: int,
    totalDurationMin: Option<int>,
    totalDistanceKm: Option<real>)

  /** A freshly created trip: one day long, no route totals yet. */
  function NewTrip(id: TripId, title: string, city: string, lat: real, lng: real,
                   startDate: Option<string>): (t: Trip)
    ensures t.id == id && t.title == title && t.city == city
    ensures t.startLat == lat && t.startLng == lng && t.startDate == startDate
    ensures t.totalDays == DEFAULT_TOTAL_DAYS
    ensures t.totalDurationMin.None? && t.totalDistanceKm.None?
  {
    Trip(id, title, city, lat, lng, startDate, DEFAULT_TOTAL_DAYS, None, None)
  }

  /** `Trip.start_location`: the start coordinates are required fields, so
      the location always exists. */
  function StartLocation(t: Trip): Location {
    Location(t.startLat, t.startLng)
  }

  datatype RouteSummary = RouteSummary(totalDurationMin: int, totalDistanceKm: real)

  /** `Trip.route_summary`: missing totals are reported as zero. */
  function RouteSummaryOf(t: Trip): (r: RouteSummary)
    ensures t.totalDurationMin.None? ==> r.totalDurationMin == 0
    ensures t.totalDurationMin.Some? ==> r.totalDurationMin == t.totalDurationMin.value
    ensures t.totalDistanceKm.None? ==> r.totalDistanceKm == 0.0
    ensures t.totalDistanceKm.Some? ==> r.totalDistanceKm == t.totalDistanceKm.value
  {
    RouteSummary(
      if t.totalDurationMin.Some? && t.totalDurationMin.value != 0 then t.totalDurationMin.value else 0,
      if t.totalDistanceKm.Some? && t.totalDistanceKm.value != 0.0 then t.totalDistanceKm.value else 0.0)
  }

  function TotalDuration(segs: seq<Segment>): int {
    SumInts(Durations(segs))
  }

  function TotalDistance(segs: seq<Segment>): real {
    SumReals(Distances(segs))
  }

  /** `update_route_summary` / `_update_trip_summary`: the trip with its totals
      recomputed from the given segments and nothing else changed. */
  function WithRouteSummary(t: Trip, segs: seq<Segment>): (r: Trip)
    ensures r == t.(totalDurationMin := Some(TotalDuration(segs)),
                    totalDistanceKm := Some(TotalDistance(segs)))
  {
    t.(totalDurationMin := Some(TotalDuration(segs)), totalDistanceKm := Some(TotalDistance(segs)))
  }

  /** After recomputation the reported summary is exactly the sums; with no
      segments it is zero. */
  lemma SummaryAfterUpdate(t: Trip, segs: seq<Segment>)
    ensures RouteSummaryOf(WithRouteSummary(t, segs)) == RouteSummary(TotalDuration(segs), TotalDistance(segs))
    ensures segs == [] ==> RouteSummaryOf(WithRouteSummary(t, segs)) == RouteSummary(0, 0.0)
  {
  }

  /** The totals over a table split in two are the sums of the totals of the
      parts, so the stored totals count the kept segments as well as the new
      ones. */
  lemma {:induction false} TotalsAppend(a: seq<Segment>, b: seq<Segment>)
    ensures TotalDuration(a + b) == TotalDuration(a) + TotalDuration(b)
    ensures TotalDistance(a + b) == TotalDistance(a) + TotalDistance(b)
  {
    assert Durations(a + b) == Durations(a) + Durations(b);
    assert Distances(a + b) == Distances(a) + Distances(b);
    SumIntsAppend(Durations(a), Durations(b));
    SumRealsAppend(Distances(a), Distances(b));
  }

  // ---------------------------------------------------------------------
  // TripMember

  datatype Role = Owner | Editor | Viewer

  /** The role a membership gets when none is given. */
  const DEFAULT_ROLE: Role := Viewer

  /** The stored spelling of a role. */
  function RoleName(r: Role): (s: string)
    ensures s in {"owner", "editor", "viewer"}
  {
    match r
    case Owner => "owner"
    case Editor => "editor"
    case Viewer => "viewer"
  }

  /** Reading a stored role back; anything outside the three choices is not
      a role. */
  function ParseRole(s: string): (r: Option<Role>)
    ensures r.Some? ==> RoleName(r.value) == s
    ensures s in {"owner", "editor", "viewer"} ==> r.Some?
  {
    if s == "owner" then Some(Owner)
    else if s == "editor" then Some(Editor)
    else if s == "viewer" then Some(Viewer)
    else None
  }

  lemma RoleNameRoundTrip(r: Role)
    ensures ParseRole(RoleName(r)) == Some(r)
  {
  }

  datatype Member = Member(id: int, trip: TripId, user: UserId, role: Role)

  /** `unique_together = [['trip', 'user']]`. */
  predicate UniqueMembership(ms: seq<Member>) {
    forall i, j :: 0 <= i < j < |ms| ==> (ms[i].trip, ms[i].user) != (ms[j].trip, ms[j].user)
  }
}
