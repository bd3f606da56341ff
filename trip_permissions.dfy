/** The trip permission classes (backend/apps/trips/permissions.py): which
    request a membership role admits, for the trip itself or for an object
    that belongs to a trip. */
module TripPermissions {
  import opened Common
  import opened TripModels

  /** `request.method` as the framework spells it. */
  type HttpMethod = string

  /** `permissions.SAFE_METHODS`. */
  predicate SafeMethod(m: HttpMethod) {
    m == "GET" || m == "HEAD" || m == "OPTIONS"
  }

  /** The object a permission is asked about: a Trip, an Event (whose trip is
      a required foreign key) or anything else, whose `trip` attribute may be
      missing or null (`None` here in both cases). */
  datatype Target = TripTarget(id: TripId) | EventTarget(eventTrip: TripId) | OtherTarget(tripAttr: Option<TripId>)

  /** The trip an object belongs to; the two classes resolve it alike. */
  function TripOf(obj: Target): (r: Option<TripId>)
    ensures obj.TripTarget? ==> r == Some(obj.id)
    ensures obj.EventTarget? ==> r == Some(obj.eventTrip)
    ensures obj.OtherTarget? ==> r == obj.tripAttr
  {
    match obj
    case TripTarget(id) => Some(id)
    case EventTarget(t) => Some(t)
    case OtherTarget(t) => t
  }

  /** `TripMember.objects.get(trip=..., user=...)`: the position of the
      membership row, if there is one. */
  function FindMember(ms: seq<Member>, trip: TripId, user: UserId): (r: Option<nat>)
    ensures r.Some? ==> r.value < |ms| && ms[r.value].trip == trip && ms[r.value].user == user
    ensures r.None? <==> forall k :: 0 <= k < |ms| ==> !(ms[k].trip == trip && ms[k].user == user)
    ensures r.Some? ==> forall k :: 0 <= k < r.value ==> !(ms[k].trip == trip && ms[k].user == user)
    decreases |ms|
  {
    if ms == [] then None
    else if ms[0].trip == trip && ms[0].user == user then Some(0)
    else match FindMember(ms[1..], trip, user)
      case None => None
      case Some(k) => Some(k + 1)
  }

  /** With (trip, user) unique, the row found is the only one. */
  lemma FindMemberUnique(ms: seq<Member>, trip: TripId, user: UserId, k: nat)
    requires UniqueMembership(ms) && k < |ms| && ms[k].trip == trip && ms[k].user == user
    ensures FindMember(ms, trip, user) == Some(k)
  {
    var r := FindMember(ms, trip, user);
    assert r.Some?;
  }

  /** The role of `user` in `trip`, if a member. */
  function RoleOf(ms: seq<Member>, trip: TripId, user: UserId): (r: Option<Role>)
    ensures r.Some? <==> exists k :: 0 <= k < |ms| && ms[k].trip == trip && ms[k].user == user
    ensures r.Some? ==> exists k :: 0 <= k < |ms| && ms[k].trip == trip && ms[k].user == user && ms[k].role == r.value
  {
    match FindMember(ms, trip, user)
    case None => None
    case Some(k) => Some(ms[k].role)
  }

  /** `has_permission` of both classes: the user must be signed in. */
  function HasPermission(user: Option<UserId>): (allowed: bool)
    ensures allowed <==> user.Some?
  {
    user.Some?
  }

  /** `TripMemberPermission.has_object_permission`. */
  function MemberAllows(ms: seq<Member>, verb: HttpMethod, user: UserId, obj: Target): (allowed: bool)
    ensures TripOf(obj).None? ==> !allowed
    ensures TripOf(obj).Some? && RoleOf(ms, TripOf(obj).value, user).None? ==> !allowed
    ensures TripOf(obj).Some? && RoleOf(ms, TripOf(obj).value, user).Some? ==>
      var role := RoleOf(ms, TripOf(obj).value, user).value;
      (SafeMethod(verb) ==> allowed) &&
      (verb == "DELETE" ==> (allowed <==> role == Owner)) &&
      (!SafeMethod(verb) && verb != "DELETE" ==> (allowed <==> role != Viewer))
  {
    match TripOf(obj)
    case None => false
    case Some(trip) =>
      match RoleOf(ms, trip, user)
      case None => false
      case Some(role) =>
        if SafeMethod(verb) then true
        else if verb == "DELETE" then role == Owner
        else role == Editor || role == Owner
  }

  /** `IsTripOwner.has_object_permission`. */
  function OwnerAllows(ms: seq<Member>, user: UserId, obj: Target): (allowed: bool)
    ensures allowed <==> TripOf(obj).Some? && RoleOf(ms, TripOf(obj).value, user) == Some(Owner)
  {
    match TripOf(obj)
    case None => false
    case Some(trip) => RoleOf(ms, trip, user) == Some(Owner)
  }

  /** A viewer may read and nothing else. */
  lemma ViewerReadsOnly(ms: seq<Member>, verb: HttpMethod, user: UserId, obj: Target)
    requires TripOf(obj).Some? && RoleOf(ms, TripOf(obj).value, user) == Some(Viewer)
    ensures MemberAllows(ms, verb, user, obj) <==> SafeMethod(verb)
  {
  }

  /** The owner passes the member check for every method. */
  lemma OwnerMayDoAnything(ms: seq<Member>, verb: HttpMethod, user: UserId, obj: Target)
    requires OwnerAllows(ms, user, obj)
    ensures MemberAllows(ms, verb, user, obj)
  {
  }

  /** The member check only ever admits members of the object's trip, so
      every permission it grants is also granted to a stronger role. */
  lemma MemberAllowsMonotone(ms: seq<Member>, ms': seq<Member>, verb: HttpMethod, user: UserId, obj: Target)
    requires TripOf(obj).Some?
    requires RoleOf(ms, TripOf(obj).value, user).Some? && RoleOf(ms', TripOf(obj).value, user).Some?
    requires RoleRank(RoleOf(ms, TripOf(obj).value, user).value) <= RoleRank(RoleOf(ms', TripOf(obj).value, user).value)
    ensures MemberAllows(ms, verb, user, obj) ==> MemberAllows(ms', verb, user, obj)
  {
  }

  /** Viewer < editor < owner, in what they may do. */
  function RoleRank(r: Role): (n: nat)
    ensures n <= 2
    ensures n == 2 <==> r == Owner
    ensures n == 0 <==> r == Viewer
  {
    match r
    case Viewer => 0
    case Editor => 1
    case Owner => 2
  }
}
