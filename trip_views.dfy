/** The trip endpoints (backend/apps/trips/views.py): listing the caller's
    trips, creating a trip together with its owner membership, patching it,
    deleting it, and the membership actions, each behind the same lookup of
    the trip and the permission class of its action. */
module TripViews {
  import opened Common
  import opened TripModels
  import opened TripPermissions

  datatype ViewError =
    | NotAuthenticated   // has_permission refused
    | NotFound           // the trip or membership is not in the queryset
    | PermissionDenied   // has_object_permission refused
    | InvalidPayload     // serializer.is_valid raised
    | UserNotFound       // no user with the invited email
    | AlreadyMember      // the invited user is already a member
    | CannotRemoveOwner  // remove_member on the owner

  datatype Action =
    | List | Retrieve | Create | Update | PartialUpdate | Destroy
    | Members | InviteMember | UpdateMemberRole | RemoveMember

  /** The HTTP method each action is routed from. */
  function Verb(a: Action): (m: HttpMethod)
    ensures SafeMethod(m) <==> a in {List, Retrieve, Members}
    ensures m == "DELETE" <==> a in {Destroy, RemoveMember}
  {
    match a
    case List => "GET"
    case Retrieve => "GET"
    case Create => "POST"
    case Update => "PUT"
    case PartialUpdate => "PATCH"
    case Destroy => "DELETE"
    case Members => "GET"
    case InviteMember => "POST"
    case UpdateMemberRole => "PATCH"
    case RemoveMember => "DELETE"
  }

  datatype PermissionClass = Authenticated | MemberPermission | OwnerPermission

  /** `get_permissions` with the classes named on the extra actions; the
      remaining actions fall back to the view's `IsAuthenticated`. */
  function PermissionOf(a: Action): (p: PermissionClass)
    ensures p == OwnerPermission <==> a in {Destroy, InviteMember, UpdateMemberRole, RemoveMember}
    ensures p == MemberPermission <==> a in {Update, PartialUpdate, Members}
  {
    match a
    case List => Authenticated
    case Retrieve => Authenticated
    case Create => Authenticated
    case Update => MemberPermission
    case PartialUpdate => MemberPermission
    case Destroy => OwnerPermission
    case Members => MemberPermission
    case InviteMember => OwnerPermission
    case UpdateMemberRole => OwnerPermission
    case RemoveMember => OwnerPermission
  }

  /** `check_object_permissions` for the trip an action addresses. */
  function ObjectAllowed(a: Action, ms: seq<Member>, user: UserId, trip: TripId): (allowed: bool)
    ensures allowed ==> PermissionOf(a) == Authenticated || RoleOf(ms, trip, user).Some?
    ensures PermissionOf(a) == OwnerPermission ==> (allowed <==> RoleOf(ms, trip, user) == Some(Owner))
  {
    match PermissionOf(a)
    case Authenticated => true
    case MemberPermission => MemberAllows(ms, Verb(a), user, TripTarget(trip))
    case OwnerPermission => OwnerAllows(ms, user, TripTarget(trip))
  }

  // ---------------------------------------------------------------------
  // The queryset

  /** `get_queryset`: the trips the user is a member of, none for an
      anonymous caller. */
  function VisibleTrips(trips: seq<Trip>, ms: seq<Member>, user: Option<UserId>): (r: seq<Trip>)
    ensures |r| <= |trips|
    ensures forall t :: t in r <==> t in trips && user.Some? && RoleOf(ms, t.id, user.value).Some?
    decreases |trips|
  {
    if trips == [] then []
    else
      var rest := VisibleTrips(trips[..|trips| - 1], ms, user);
      var t := trips[|trips| - 1];
      assert trips == trips[..|trips| - 1] + [t];
      if user.Some? && RoleOf(ms, t.id, user.value).Some? then rest + [t] else rest
  }

  /** The position of the trip with that primary key. */
  function IndexOfTrip(trips: seq<Trip>, id: TripId): (r: Option<nat>)
    ensures r.Some? ==> r.value < |trips| && trips[r.value].id == id
    ensures r.None? <==> forall k :: 0 <= k < |trips| ==> trips[k].id != id
    decreases |trips|
  {
    if trips == [] then None
    else if trips[0].id == id then Some(0)
    else match IndexOfTrip(trips[1..], id)
      case None => None
      case Some(k) => Some(k + 1)
  }

  /** `get_object` behind the action's permission: authentication first,
      then the queryset (a trip the user is no member of is not found, not
      forbidden), then the object permission. */
  function Authorize(trips: seq<Trip>, ms: seq<Member>, user: Option<UserId>, id: TripId, a: Action): (r: Result<nat, ViewError>)
    ensures user.None? ==> r == Err(NotAuthenticated)
    ensures user.Some? && (IndexOfTrip(trips, id).None? || RoleOf(ms, id, user.value).None?) ==> r == Err(NotFound)
    ensures user.Some? && IndexOfTrip(trips, id).Some? && RoleOf(ms, id, user.value).Some? ==>
      r == if ObjectAllowed(a, ms, user.value, id) then Ok(IndexOfTrip(trips, id).value) else Err(PermissionDenied)
    ensures r.Ok? ==> r.value < |trips| && trips[r.value].id == id
  {
    if user.None? then Err(NotAuthenticated)
    else match IndexOfTrip(trips, id)
      case None => Err(NotFound)
      case Some(k) =>
        if RoleOf(ms, id, user.value).None? then Err(NotFound)
        else if ObjectAllowed(a, ms, user.value, id) then Ok(k)
        else Err(PermissionDenied)
  }

  /** Listing and creating are guarded by `IsAuthenticated` alone: the
      object check passes whatever role, or none, the caller holds. (The
      views reach them without a trip lookup; VisibleTrips and CreateTrip
      model those paths.) */
  lemma AuthenticatedNeedsNoRole(ms: seq<Member>, user: UserId, id: TripId, a: Action)
    requires PermissionOf(a) == Authenticated
    ensures a in {List, Retrieve, Create}
    ensures ObjectAllowed(a, ms, user, id)
  {
  }

  /** A signed-in viewer reaches every reading action and none of the
      others; of these, List and Create are open to every signed-in user
      (AuthenticatedNeedsNoRole). */
  lemma ViewerAccess(trips: seq<Trip>, ms: seq<Member>, user: UserId, id: TripId, a: Action)
    requires IndexOfTrip(trips, id).Some? && RoleOf(ms, id, user) == Some(Viewer)
    ensures Authorize(trips, ms, Some(user), id, a).Ok? <==> a in {List, Retrieve, Create, Members}
  {
  }

  /** An editor reaches everything but deleting and the membership actions. */
  lemma EditorAccess(trips: seq<Trip>, ms: seq<Member>, user: UserId, id: TripId, a: Action)
    requires IndexOfTrip(trips, id).Some? && RoleOf(ms, id, user) == Some(Editor)
    ensures Authorize(trips, ms, Some(user), id, a).Ok? <==> PermissionOf(a) != OwnerPermission
  {
  }

  /** The owner reaches every action. */
  lemma OwnerAccess(trips: seq<Trip>, ms: seq<Member>, user: UserId, id: TripId, a: Action)
    requires IndexOfTrip(trips, id).Some? && RoleOf(ms, id, user) == Some(Owner)
    ensures Authorize(trips, ms, Some(user), id, a).Ok?
  {
  }

  // ---------------------------------------------------------------------
  // Request bodies

  /** The body of a create request, as the client may send it. */
  datatype TripRequest = TripRequest(
    title: string, city: string, lat: real, lng: real,
    startDate: Option<string>, totalDays: Option<int>)

  /** `TripCreateSerializer` declares title, city and startLocation only, so
      the validated data never holds startDate or totalDays. */
  function CreateValidated(req: TripRequest): (d: TripRequest)
    ensures d.title == req.title && d.city == req.city && d.lat == req.lat && d.lng == req.lng
    ensures d.startDate.None? && d.totalDays.None?
  {
    req.(startDate := None, totalDays := None)
  }

  /** The row `create` writes from validated data: `data.get('startDate')`
      and `data.get('totalDays', 1)`. */
  function CreatedTrip(id: TripId, d: TripRequest): (t: Trip)
    ensures t.id == id && t.title == d.title && t.city == d.city
    ensures t.startLat == d.lat && t.startLng == d.lng && t.startDate == d.startDate
    ensures t.totalDays == d.totalDays.GetOr(DEFAULT_TOTAL_DAYS)
    ensures RouteSummaryOf(t) == RouteSummary(0, 0.0)
  {
    Trip(id, d.title, d.city, d.lat, d.lng, d.startDate, d.totalDays.GetOr(DEFAULT_TOTAL_DAYS), None, None)
  }

  /** Whatever the client sends, the trip created is one day long with no
      start date. */
  lemma CreatedTripDefaults(id: TripId, req: TripRequest)
    ensures CreatedTrip(id, CreateValidated(req)).totalDays == 1
    ensures CreatedTrip(id, CreateValidated(req)).startDate.None?
  {
  }

  /** The body of a patch request: each field present or absent; a present
      startDate may be null. */
  datatype TripPatch = TripPatch(
    title: Option<string>, city: Option<string>, startLocation: Option<(real, real)>,
    startDate: Option<Option<string>>, totalDays: Option<int>)

  /** `TripUpdateSerializer` declares title, city and startLocation only. */
  function UpdateValidated(p: TripPatch): (d: TripPatch)
    ensures d.title == p.title && d.city == p.city && d.startLocation == p.startLocation
    ensures d.startDate.None? && d.totalDays.None?
  {
    p.(startDate := None, totalDays := None)
  }

  /** `partial_update`: each field present in the data is written. */
  function Patched(t: Trip, d: TripPatch): (r: Trip)
    ensures r.id == t.id && r.totalDurationMin == t.totalDurationMin && r.totalDistanceKm == t.totalDistanceKm
    ensures r.title == d.title.GetOr(t.title) && r.city == d.city.GetOr(t.city)
    ensures d.startLocation.None? ==> r.startLat == t.startLat && r.startLng == t.startLng
    ensures d.startLocation.Some? ==> r.startLat == d.startLocation.value.0 && r.startLng == d.startLocation.value.1
    ensures r.startDate == d.startDate.GetOr(t.startDate) && r.totalDays == d.totalDays.GetOr(t.totalDays)
  {
    var t1 := if d.title.Some? then t.(title := d.title.value) else t;
    var t2 := if d.city.Some? then t1.(city := d.city.value) else t1;
    var t3 := if d.startLocation.Some? then t2.(startLat := d.startLocation.value.0, startLng := d.startLocation.value.1) else t2;
    var t4 := if d.startDate.Some? then t3.(startDate := d.startDate.value) else t3;
    if d.totalDays.Some? then t4.(totalDays := d.totalDays.value) else t4
  }

  /** An empty patch changes nothing, and patching twice is patching once. */
  lemma PatchedLaws(t: Trip, d: TripPatch)
    ensures Patched(t, TripPatch(None, None, None, None, None)) == t
    ensures Patched(Patched(t, d), d) == Patched(t, d)
  {
  }

  /** Through the serializer, a patch never touches the start date or the
      number of days. */
  lemma PatchKeepsSchedule(t: Trip, p: TripPatch)
    ensures Patched(t, UpdateValidated(p)).startDate == t.startDate
    ensures Patched(t, UpdateValidated(p)).totalDays == t.totalDays
  {
  }

  // ---------------------------------------------------------------------
  // Table helpers

  /** The membership rows of one trip, in table order. */
  function MembersOf(ms: seq<Member>, trip: TripId): (r: seq<Member>)
    ensures |r| <= |ms|
    ensures forall m :: m in r <==> m in ms && m.trip == trip
    decreases |ms|
  {
    if ms == [] then []
    else
      var rest := MembersOf(ms[..|ms| - 1], trip);
      var m := ms[|ms| - 1];
      assert ms == ms[..|ms| - 1] + [m];
      if m.trip == trip then rest + [m] else rest
  }

  /** The membership rows of the other trips: what the cascade leaves. */
  function MembersNotOf(ms: seq<Member>, trip: TripId): (r: seq<Member>)
    ensures |r| <= |ms|
    ensures forall m :: m in r <==> m in ms && m.trip != trip
    decreases |ms|
  {
    if ms == [] then []
    else
      var rest := MembersNotOf(ms[..|ms| - 1], trip);
      var m := ms[|ms| - 1];
      assert ms == ms[..|ms| - 1] + [m];
      if m.trip != trip then rest + [m] else rest
  }

  predicate UniqueTripIds(trips: seq<Trip>) {
    forall i, j :: 0 <= i < j < |trips| ==> trips[i].id != trips[j].id
  }

  predicate UniqueMemberIds(ms: seq<Member>) {
    forall i, j :: 0 <= i < j < |ms| ==> ms[i].id != ms[j].id
  }

  /** The invariant of the two tables: ids unique and below the next id,
      (trip, user) unique, and every membership pointing at a stored trip. */
  predicate TablesValid(trips: seq<Trip>, ms: seq<Member>, nextTripId: int, nextMemberId: int) {
    && UniqueTripIds(trips) && (forall k :: 0 <= k < |trips| ==> trips[k].id < nextTripId)
    && UniqueMemberIds(ms) && (forall k :: 0 <= k < |ms| ==> ms[k].id < nextMemberId)
    && UniqueMembership(ms)
    && (forall k :: 0 <= k < |ms| ==> exists j :: 0 <= j < |trips| && trips[j].id == ms[k].trip)
  }

  /** A new trip's id is fresh, so no membership points at it yet. */
  lemma FreshTripHasNoMembers(trips: seq<Trip>, ms: seq<Member>, nt: int, nm: int)
    requires TablesValid(trips, ms, nt, nm)
    ensures MembersOf(ms, nt) == []
  {
  }

  lemma {:induction false} MembersOfSnoc(ms: seq<Member>, m: Member, trip: TripId)
    ensures MembersOf(ms + [m], trip) == MembersOf(ms, trip) + (if m.trip == trip then [m] else [])
  {
    assert (ms + [m])[..|ms|] == ms;
  }

  lemma CreateKeepsValid(trips: seq<Trip>, ms: seq<Member>, nt: int, nm: int, t: Trip, user: UserId)
    requires TablesValid(trips, ms, nt, nm) && t.id == nt
    ensures TablesValid(trips + [t], ms + [Member(nm, nt, user, Owner)], nt + 1, nm + 1)
  {
    var trips', ms' := trips + [t], ms + [Member(nm, nt, user, Owner)];
    forall k | 0 <= k < |ms'|
      ensures exists j :: 0 <= j < |trips'| && trips'[j].id == ms'[k].trip
    {
      if k < |ms| {
        var j :| 0 <= j < |trips| && trips[j].id == ms[k].trip;
        assert trips'[j] == trips[j];
      } else {
        assert trips'[|trips|].id == ms'[k].trip;
      }
    }
    forall i, j | 0 <= i < j < |ms'|
      ensures (ms'[i].trip, ms'[i].user) != (ms'[j].trip, ms'[j].user)
      ensures ms'[i].id != ms'[j].id
    {
      if j == |ms| {
        var jt :| 0 <= jt < |trips| && trips[jt].id == ms[i].trip;
      }
    }
    forall i, j | 0 <= i < j < |trips'|
      ensures trips'[i].id != trips'[j].id
    {
    }
    assert UniqueTripIds(trips');
    assert forall k :: 0 <= k < |trips'| ==> trips'[k].id < nt + 1;
    assert UniqueMemberIds(ms');
    assert forall k :: 0 <= k < |ms'| ==> ms'[k].id < nm + 1;
    assert UniqueMembership(ms');
  }

  // ---------------------------------------------------------------------
  // The database

  class TripDb {
    var trips: seq<Trip>
    var members: seq<Member>
    var nextTripId: int
    var nextMemberId: int

    ghost predicate Valid()
      reads this
    {
      TablesValid(trips, members, nextTripId, nextMemberId)
    }

    constructor()
      ensures Valid() && trips == [] && members == [] && nextTripId == 1 && nextMemberId == 1
    {
      trips := [];
      members := [];
      nextTripId := 1;
      nextMemberId := 1;
    }

    /** `list` (and the queryset behind every detail action). */
    function ListTrips(user: Option<UserId>): (r: Result<seq<Trip>, ViewError>)
      reads this
      ensures user.None? ==> r == Err(NotAuthenticated)
      ensures user.Some? ==> r.Ok? && forall t :: t in r.value <==> t in trips && RoleOf(members, t.id, user.value).Some?
    {
      if user.None? then Err(NotAuthenticated) else Ok(VisibleTrips(trips, members, user))
    }

    /** `retrieve`: any member may read the trip. */
    function RetrieveTrip(user: Option<UserId>, id: TripId): (r: Result<Trip, ViewError>)
      reads this
      ensures r.Ok? <==> user.Some? && IndexOfTrip(trips, id).Some? && RoleOf(members, id, user.value).Some?
      ensures r.Ok? ==> r.value in trips && r.value.id == id
    {
      match Authorize(trips, members, user, id, Action.Retrieve)
      case Err(e) => Err(e)
      case Ok(k) => Ok(trips[k])
    }

    /** `members`: the trip's membership rows, for any member. */
    function ListMembers(user: Option<UserId>, id: TripId): (r: Result<seq<Member>, ViewError>)
      reads this
      ensures r.Ok? <==> user.Some? && IndexOfTrip(trips, id).Some? && RoleOf(members, id, user.value).Some?
      ensures r.Ok? ==> forall m :: m in r.value <==> m in members && m.trip == id
    {
      match Authorize(trips, members, user, id, Action.Members)
      case Err(e) => Err(e)
      case Ok(_) => Ok(MembersOf(members, id))
    }

    /** `create`: the trip and its creator's owner membership in one
        transaction; nothing is written when validation fails. */
    method CreateTrip(user: Option<UserId>, req: Option<TripRequest>) returns (r: Result<Trip, ViewError>)
      requires Valid()
      modifies this
      ensures Valid()
      ensures user.None? ==> r == Err(NotAuthenticated)
      ensures user.Some? && req.None? ==> r == Err(InvalidPayload)
      ensures r.Ok? <==> user.Some? && req.Some?
      ensures r.Err? ==> trips == old(trips) && members == old(members) &&
                         nextTripId == old(nextTripId) && nextMemberId == old(nextMemberId)
      ensures r.Ok? ==> (user.Some? && req.Some? &&
        r.value == CreatedTrip(old(nextTripId), CreateValidated(req.value)) &&
        trips == old(trips) + [r.value] &&
        members == old(members) + [Member(old(nextMemberId), r.value.id, user.value, Owner)] &&
        nextTripId == old(nextTripId) + 1 && nextMemberId == old(nextMemberId) + 1)
      ensures r.Ok? ==> MembersOf(members, r.value.id) == [Member(old(nextMemberId), r.value.id, user.value, Owner)]
    {
      if user.None? {
        return Err(NotAuthenticated);
      }
      if req.None? {
        return Err(InvalidPayload);
      }
      var t := CreatedTrip(nextTripId, CreateValidated(req.value));
      var m := Member(nextMemberId, t.id, user.value, Owner);
      FreshTripHasNoMembers(trips, members, nextTripId, nextMemberId);
      MembersOfSnoc(members, m, t.id);
      CreateKeepsValid(trips, members, nextTripId, nextMemberId, t, user.value);
      trips := trips + [t];
      members := members + [m];
      nextTripId := nextTripId + 1;
      nextMemberId := nextMemberId + 1;
      r := Ok(t);
    }

    /** `partial_update`: an editor or the owner writes the fields the
        serializer let through. */
    method PartialUpdate(user: Option<UserId>, id: TripId, p: TripPatch) returns (r: Result<Trip, ViewError>)
      requires Valid()
      modifies this
      ensures Valid()
      ensures members == old(members) && nextTripId == old(nextTripId) && nextMemberId == old(nextMemberId)
      ensures r.Err? ==> Authorize(old(trips), old(members), user, id, Action.PartialUpdate).Err? &&
                         r == Err(Authorize(old(trips), old(members), user, id, Action.PartialUpdate).error) && trips == old(trips)
      ensures r.Ok? ==> Authorize(old(trips), old(members), user, id, Action.PartialUpdate).Ok?
      ensures r.Ok? ==> var k := Authorize(old(trips), old(members), user, id, Action.PartialUpdate).value;
        r.value == Patched(old(trips)[k], UpdateValidated(p)) && trips == old(trips)[k := r.value]
    {
      var a := Authorize(trips, members, user, id, Action.PartialUpdate);
      if a.Err? {
        return Err(a.error);
      }
      var k := a.value;
      var t := Patched(trips[k], UpdateValidated(p));
      PatchKeepsValid(trips, members, nextTripId, nextMemberId, k, t);
      trips := trips[k := t];
      r := Ok(t);
    }

    /** `destroy`: the owner deletes the trip; its memberships go with it. */
    method DestroyTrip(user: Option<UserId>, id: TripId) returns (r: Result<(), ViewError>)
      requires Valid()
      modifies this
      ensures Valid()
      ensures nextTripId == old(nextTripId) && nextMemberId == old(nextMemberId)
      ensures r.Err? ==> Authorize(old(trips), old(members), user, id, Action.Destroy).Err? &&
                         r == Err(Authorize(old(trips), old(members), user, id, Action.Destroy).error) &&
                         trips == old(trips) && members == old(members)
      ensures r.Ok? <==> Authorize(old(trips), old(members), user, id, Action.Destroy).Ok?
      ensures r.Ok? ==> var k := Authorize(old(trips), old(members), user, id, Action.Destroy).value;
        trips == old(trips)[..k] + old(trips)[k + 1..] && members == MembersNotOf(old(members), id)
    {
      var a := Authorize(trips, members, user, id, Action.Destroy);
      if a.Err? {
        return Err(a.error);
      }
      var k := a.value;
      DestroyKeepsValid(trips, members, nextTripId, nextMemberId, k);
      trips := trips[..k] + trips[k + 1..];
      members := MembersNotOf(members, id);
      r := Ok(());
    }

    /** `invite_member`: the owner adds a user found by email, with the role
        given or viewer. */
    method InviteMember(user: Option<UserId>, id: TripId, email: string, role: Option<Role>,
                        users: map<string, UserId>) returns (r: Result<Member, ViewError>)
      requires Valid()
      modifies this
      ensures Valid()
      ensures trips == old(trips) && nextTripId == old(nextTripId)
      ensures Authorize(old(trips), old(members), user, id, Action.InviteMember).Err? ==>
        r == Err(Authorize(old(trips), old(members), user, id, Action.InviteMember).error)
      ensures Authorize(old(trips), old(members), user, id, Action.InviteMember).Ok? ==>
        (email !in users ==> r == Err(UserNotFound)) &&
        (email in users && RoleOf(old(members), id, users[email]).Some? ==> r == Err(AlreadyMember))
      ensures r.Ok? <==> (Authorize(old(trips), old(members), user, id, Action.InviteMember).Ok? &&
        email in users && RoleOf(old(members), id, users[email]).None?)
      ensures r.Err? ==> members == old(members) && nextMemberId == old(nextMemberId)
      ensures r.Ok? ==> (Authorize(old(trips), old(members), user, id, Action.InviteMember).Ok? &&
        email in users && RoleOf(old(members), id, users[email]).None? &&
        r.value == Member(old(nextMemberId), id, users[email], role.GetOr(DEFAULT_ROLE)) &&
        members == old(members) + [r.value] && nextMemberId == old(nextMemberId) + 1)
    {
      var a := Authorize(trips, members, user, id, Action.InviteMember);
      if a.Err? {
        return Err(a.error);
      }
      if email !in users {
        return Err(UserNotFound);
      }
      var invitee := users[email];
      if RoleOf(members, id, invitee).Some? {
        return Err(AlreadyMember);
      }
      var m := Member(nextMemberId, id, invitee, role.GetOr(DEFAULT_ROLE));
      InviteKeepsValid(trips, members, nextTripId, nextMemberId, a.value, m);
      members := members + [m];
      nextMemberId := nextMemberId + 1;
      r := Ok(m);
    }

    /** `update_member_role`: the owner sets the role of one membership;
        nothing stops the owner row itself from being changed. */
    method UpdateMemberRole(user: Option<UserId>, id: TripId, target: UserId, role: Option<Role>)
      returns (r: Result<Member, ViewError>)
      requires Valid()
      modifies this
      ensures Valid()
      ensures trips == old(trips) && nextTripId == old(nextTripId) && nextMemberId == old(nextMemberId)
      ensures Authorize(old(trips), old(members), user, id, Action.UpdateMemberRole).Err? ==>
        r == Err(Authorize(old(trips), old(members), user, id, Action.UpdateMemberRole).error)
      ensures Authorize(old(trips), old(members), user, id, Action.UpdateMemberRole).Ok? ==>
        (role.None? ==> r == Err(InvalidPayload)) &&
        (role.Some? && FindMember(old(members), id, target).None? ==> r == Err(NotFound))
      ensures r.Ok? <==> (Authorize(old(trips), old(members), user, id, Action.UpdateMemberRole).Ok? &&
        role.Some? && FindMember(old(members), id, target).Some?)
      ensures r.Err? ==> members == old(members)
      ensures r.Ok? ==> (role.Some? && FindMember(old(members), id, target).Some? &&
        var k := FindMember(old(members), id, target).value;
        r.value == old(members)[k].(role := role.value) && members == old(members)[k := r.value])
    {
      var a := Authorize(trips, members, user, id, Action.UpdateMemberRole);
      if a.Err? {
        return Err(a.error);
      }
      if role.None? {
        return Err(InvalidPayload);
      }
      var found := FindMember(members, id, target);
      if found.None? {
        return Err(NotFound);
      }
      var k := found.value;
      var m := members[k].(role := role.value);
      RoleChangeKeepsValid(trips, members, nextTripId, nextMemberId, k, role.value);
      members := members[k := m];
      r := Ok(m);
    }

    /** `remove_member`: the owner removes one non-owner membership. */
    method RemoveMember(user: Option<UserId>, id: TripId, target: UserId) returns (r: Result<(), ViewError>)
      requires Valid()
      modifies this
      ensures Valid()
      ensures trips == old(trips) && nextTripId == old(nextTripId) && nextMemberId == old(nextMemberId)
      ensures Authorize(old(trips), old(members), user, id, Action.RemoveMember).Err? ==>
        r == Err(Authorize(old(trips), old(members), user, id, Action.RemoveMember).error)
      ensures Authorize(old(trips), old(members), user, id, Action.RemoveMember).Ok? ==>
        (FindMember(old(members), id, target).None? ==> r == Err(NotFound)) &&
        (RoleOf(old(members), id, target) == Some(Owner) ==> r == Err(CannotRemoveOwner))
      ensures r.Ok? <==> (Authorize(old(trips), old(members), user, id, Action.RemoveMember).Ok? &&
        FindMember(old(members), id, target).Some? &&
        old(members)[FindMember(old(members), id, target).value].role != Owner)
      ensures r.Err? ==> members == old(members)
      ensures r.Ok? ==> (FindMember(old(members), id, target).Some? &&
        var k := FindMember(old(members), id, target).value;
        old(members)[k].role != Owner && members == old(members)[..k] + old(members)[k + 1..])
    {
      var a := Authorize(trips, members, user, id, Action.RemoveMember);
      if a.Err? {
        return Err(a.error);
      }
      var found := FindMember(members, id, target);
      if found.None? {
        return Err(NotFound);
      }
      var k := found.value;
      if members[k].role == Owner {
        return Err(CannotRemoveOwner);
      }
      RemoveKeepsValid(trips, members, nextTripId, nextMemberId, k);
      members := members[..k] + members[k + 1..];
      r := Ok(());
    }
  }

  // ---------------------------------------------------------------------
  // What the actions keep

  lemma PatchKeepsValid(trips: seq<Trip>, ms: seq<Member>, nt: int, nm: int, k: nat, t: Trip)
    requires TablesValid(trips, ms, nt, nm) && k < |trips| && t.id == trips[k].id
    ensures TablesValid(trips[k := t], ms, nt, nm)
  {
    var trips' := trips[k := t];
    forall j | 0 <= j < |trips'|
      ensures trips'[j].id == trips[j].id
    {
    }
    assert UniqueTripIds(trips');
    forall i | 0 <= i < |ms|
      ensures exists j :: 0 <= j < |trips'| && trips'[j].id == ms[i].trip
    {
      var j :| 0 <= j < |trips| && trips[j].id == ms[i].trip;
      assert trips'[j].id == trips[j].id;
    }
  }

  lemma DestroyKeepsValid(trips: seq<Trip>, ms: seq<Member>, nt: int, nm: int, k: nat)
    requires TablesValid(trips, ms, nt, nm) && k < |trips|
    ensures TablesValid(trips[..k] + trips[k + 1..], MembersNotOf(ms, trips[k].id), nt, nm)
  {
    var trips' := trips[..k] + trips[k + 1..];
    var ms' := MembersNotOf(ms, trips[k].id);
    RemoveTripKeepsIds(trips, nt, k);
    SubsequenceMembers(ms, trips[k].id);
    forall i | 0 <= i < |ms'|
      ensures exists j :: 0 <= j < |trips'| && trips'[j].id == ms'[i].trip
      ensures ms'[i].id < nm
    {
      assert ms'[i] in ms;
      SurvivorKeepsTrip(trips, ms, nt, nm, k, ms'[i], trips');
    }
  }

  lemma RemoveTripKeepsIds(trips: seq<Trip>, nt: int, k: nat)
    requires UniqueTripIds(trips) && (forall j :: 0 <= j < |trips| ==> trips[j].id < nt) && k < |trips|
    ensures var trips' := trips[..k] + trips[k + 1..];
      UniqueTripIds(trips') && forall j :: 0 <= j < |trips'| ==> trips'[j].id < nt
  {
    var trips' := trips[..k] + trips[k + 1..];
    assert forall j :: 0 <= j < |trips'| ==> trips'[j] == if j < k then trips[j] else trips[j + 1];
  }

  /** A membership of another trip still points at a stored trip. */
  lemma SurvivorKeepsTrip(trips: seq<Trip>, ms: seq<Member>, nt: int, nm: int, k: nat, x: Member, trips': seq<Trip>)
    requires TablesValid(trips, ms, nt, nm) && k < |trips| && x in ms && x.trip != trips[k].id
    requires trips' == trips[..k] + trips[k + 1..]
    ensures exists j :: 0 <= j < |trips'| && trips'[j].id == x.trip
    ensures x.id < nm
  {
    var m :| 0 <= m < |ms| && ms[m] == x;
    var j :| 0 <= j < |trips| && trips[j].id == ms[m].trip;
    if j < k {
      assert trips'[j] == trips[j];
    } else {
      assert trips'[j - 1] == trips[j];
    }
  }

  /** The cascade keeps the surviving rows in their order, so the unique
      keys stay unique and the ids stay bounded. */
  lemma {:induction false} SubsequenceMembers(ms: seq<Member>, trip: TripId)
    requires UniqueMemberIds(ms) && UniqueMembership(ms)
    ensures UniqueMemberIds(MembersNotOf(ms, trip)) && UniqueMembership(MembersNotOf(ms, trip))
    decreases |ms|
  {
    if ms != [] {
      var p := ms[..|ms| - 1];
      var m := ms[|ms| - 1];
      SubsequenceMembers(p, trip);
      if m.trip != trip {
        KeptLastMember(ms, p, m, trip, MembersNotOf(p, trip));
      }
    }
  }

  /** The last row, kept by the cascade, clashes with no earlier kept row. */
  lemma KeptLastMember(ms: seq<Member>, p: seq<Member>, m: Member, trip: TripId, rest: seq<Member>)
    requires ms != [] && p == ms[..|ms| - 1] && m == ms[|ms| - 1] && m.trip != trip
    requires rest == MembersNotOf(p, trip)
    requires UniqueMemberIds(ms) && UniqueMembership(ms)
    requires UniqueMemberIds(rest) && UniqueMembership(rest)
    ensures MembersNotOf(ms, trip) == rest + [m]
    ensures UniqueMemberIds(rest + [m]) && UniqueMembership(rest + [m])
  {
    forall k | 0 <= k < |rest|
      ensures rest[k].id != m.id && (rest[k].trip, rest[k].user) != (m.trip, m.user)
    {
      var x := rest[k];
      assert x in p;
      var i :| 0 <= i < |p| && p[i] == x;
      assert ms[i] == x;
    }
    UniqueAppend(rest, m);
  }

  /** A row clashing with none of a clash-free table keeps it clash-free. */
  lemma UniqueAppend(rest: seq<Member>, m: Member)
    requires UniqueMemberIds(rest) && UniqueMembership(rest)
    requires forall k :: 0 <= k < |rest| ==> rest[k].id != m.id && (rest[k].trip, rest[k].user) != (m.trip, m.user)
    ensures UniqueMemberIds(rest + [m]) && UniqueMembership(rest + [m])
  {
    var s := rest + [m];
    assert forall k :: 0 <= k < |rest| ==> s[k] == rest[k];
  }

  lemma InviteKeepsValid(trips: seq<Trip>, ms: seq<Member>, nt: int, nm: int, k: nat, m: Member)
    requires TablesValid(trips, ms, nt, nm) && k < |trips| && m.trip == trips[k].id && m.id == nm
    requires RoleOf(ms, m.trip, m.user).None?
    ensures TablesValid(trips, ms + [m], nt, nm + 1)
  {
    var ms' := ms + [m];
    forall i | 0 <= i < |ms'|
      ensures exists j :: 0 <= j < |trips| && trips[j].id == ms'[i].trip
    {
      if i == |ms| {
        assert trips[k].id == ms'[i].trip;
      } else {
        assert ms'[i] == ms[i];
      }
    }
  }

  lemma RoleChangeKeepsValid(trips: seq<Trip>, ms: seq<Member>, nt: int, nm: int, k: nat, role: Role)
    requires TablesValid(trips, ms, nt, nm) && k < |ms|
    ensures TablesValid(trips, ms[k := ms[k].(role := role)], nt, nm)
  {
    var ms' := ms[k := ms[k].(role := role)];
    forall i | 0 <= i < |ms'|
      ensures exists j :: 0 <= j < |trips| && trips[j].id == ms'[i].trip
    {
      assert ms'[i].trip == ms[i].trip;
    }
  }

  lemma RemoveKeepsValid(trips: seq<Trip>, ms: seq<Member>, nt: int, nm: int, k: nat)
    requires TablesValid(trips, ms, nt, nm) && k < |ms|
    ensures TablesValid(trips, ms[..k] + ms[k + 1..], nt, nm)
  {
    var ms' := ms[..k] + ms[k + 1..];
    assert forall i :: 0 <= i < |ms'| ==> ms'[i] == ms[if i < k then i else i + 1];
    forall i | 0 <= i < |ms'|
      ensures ms'[i].id < nm
      ensures exists j :: 0 <= j < |trips| && trips[j].id == ms'[i].trip
    {
      var n := if i < k then i else i + 1;
      assert ms'[i] == ms[n];
    }
    forall i, j | 0 <= i < j < |ms'|
      ensures (ms'[i].trip, ms'[i].user) != (ms'[j].trip, ms'[j].user) && ms'[i].id != ms'[j].id
    {
      var a, b := if i < k then i else i + 1, if j < k then j else j + 1;
      assert ms'[i] == ms[a] && ms'[j] == ms[b] && a < b;
    }
    assert UniqueMemberIds(ms');
    assert UniqueMembership(ms');
    assert forall q :: 0 <= q < |ms'| ==> ms'[q].id < nm;
    assert forall q :: 0 <= q < |ms'| ==> exists j :: 0 <= j < |trips| && trips[j].id == ms'[q].trip;
  }

  /** Removing a non-owner row keeps every owner of every trip. */
  lemma RemoveKeepsOwners(ms: seq<Member>, k: nat)
    requires k < |ms| && ms[k].role != Owner
    ensures forall m :: m in ms && m.role == Owner ==> m in ms[..k] + ms[k + 1..]
  {
    forall m | m in ms && m.role == Owner
      ensures m in ms[..k] + ms[k + 1..]
    {
      var i :| 0 <= i < |ms| && ms[i] == m;
      if i < k {
        assert (ms[..k] + ms[k + 1..])[i] == m;
      } else {
        assert (ms[..k] + ms[k + 1..])[i - 1] == m;
      }
    }
  }

  /** Once a user is invited, inviting them again is refused. */
  lemma InviteTwiceRefused(ms: seq<Member>, m: Member)
    ensures RoleOf(ms + [m], m.trip, m.user) == Some(m.role) || RoleOf(ms, m.trip, m.user).Some?
    ensures RoleOf(ms + [m], m.trip, m.user).Some?
  {
    assert (ms + [m])[|ms|] == m;
    if RoleOf(ms, m.trip, m.user).None? {
      var k := FindMember(ms + [m], m.trip, m.user).value;
      assert k == |ms|;
    }
  }
}
