/** The route cache table (backend/apps/routes/models.py): one row per
    (from place, to place), an expiry set on first save to seven days
    later, the expiry test and the lookup of a live entry. Times are whole
    seconds. */
module RouteCache {
  import opened Common

  /** `timezone.timedelta(days=7)` in seconds. */
  const SevenDays: int := 7 * 24 * 60 * 60

  /** A stored row: `expires_at` is a non-null column. */
  datatype CacheRow = CacheRow(id: int, fromPlaceId: string, toPlaceId: string,
                               durationMin: int, distanceKm: real, polyline: string, expiresAt: int)

  /** A row being saved: the primary key is unset for a new row, and
      `expires_at` may be unset. */
  datatype Draft = Draft(id: Option<int>, fromPlaceId: string, toPlaceId: string,
                         durationMin: int, distanceKm: real, polyline: string, expiresAt: Option<int>)

  datatype CacheError =
    | IntegrityError           // unique_together (from_place_id, to_place_id) violated
    | MultipleObjectsReturned  // `objects.get` matched more than one row

  /** The expiry `save` stores: the draft's own, else seven days from now. */
  function ExpiryOnSave(d: Draft, now: int): (e: int)
    ensures d.expiresAt.Some? ==> e == d.expiresAt.value
    ensures d.expiresAt.None? ==> e == now + SevenDays
  {
    if d.expiresAt.None? then now + SevenDays else d.expiresAt.value
  }

  /** `is_expired`: strictly past the expiry. */
  predicate IsExpired(row: CacheRow, now: int) {
    now > row.expiresAt
  }

  /** `unique_together`: no two rows share a (from, to) pair. */
  predicate UniquePairs(rows: seq<CacheRow>) {
    forall i, j :: 0 <= i < j < |rows| ==>
      rows[i].fromPlaceId != rows[j].fromPlaceId || rows[i].toPlaceId != rows[j].toPlaceId
  }

  predicate UniqueRowIds(rows: seq<CacheRow>) {
    forall i, j :: 0 <= i < j < |rows| ==> rows[i].id != rows[j].id
  }

  /** The rows `get_route`'s query matches: that pair, expiring strictly
      after now. */
  function LiveMatches(rows: seq<CacheRow>, from: string, to: string, now: int): (r: seq<CacheRow>)
    ensures forall x :: x in r <==> x in rows && x.fromPlaceId == from && x.toPlaceId == to && x.expiresAt > now
    ensures |r| <= |rows|
    decreases |rows|
  {
    if rows == [] then []
    else
      var rest := LiveMatches(rows[1..], from, to, now);
      assert forall x :: x in rows <==> x == rows[0] || x in rows[1..];
      var hit := rows[0].fromPlaceId == from && rows[0].toPlaceId == to && rows[0].expiresAt > now;
      if hit then [rows[0]] + rest else rest
  }

  /** `get_route`: the live entry for the pair, or None when there is none
      (expired entries included). A second match would make `get` raise. */
  function GetRoute(rows: seq<CacheRow>, from: string, to: string, now: int): (r: Result<Option<CacheRow>, CacheError>)
    ensures r == Ok(None) <==> forall x :: x in rows && x.fromPlaceId == from && x.toPlaceId == to ==> x.expiresAt <= now
    ensures r.Ok? && r.value.Some? ==>
      r.value.value in rows && r.value.value.fromPlaceId == from && r.value.value.toPlaceId == to &&
      r.value.value.expiresAt > now
    ensures r.Err? ==> r.error == MultipleObjectsReturned
  {
    var m := LiveMatches(rows, from, to, now);
    if |m| == 0 then Ok(None)
    else
      assert m[0] in m;
      if |m| == 1 then Ok(Some(m[0])) else Err(MultipleObjectsReturned)
  }

  /** With the pairs unique the lookup never raises. */
  lemma {:induction false} GetRouteNeverRaises(rows: seq<CacheRow>, from: string, to: string, now: int)
    requires UniquePairs(rows)
    ensures GetRoute(rows, from, to, now).Ok?
    decreases |rows|
  {
    if rows != [] {
      assert UniquePairs(rows[1..]) by {
        forall i, j | 0 <= i < j < |rows[1..]|
          ensures rows[1..][i].fromPlaceId != rows[1..][j].fromPlaceId || rows[1..][i].toPlaceId != rows[1..][j].toPlaceId
        {
          assert rows[1..][i] == rows[i + 1] && rows[1..][j] == rows[j + 1];
        }
      }
      GetRouteNeverRaises(rows[1..], from, to, now);
    }
  }

  /** At the expiry instant the entry is not yet expired, but `get_route`
      no longer returns it: the two tests disagree at exactly that
      moment. */
  lemma ExpiryBoundary(rows: seq<CacheRow>, k: nat, now: int)
    requires UniquePairs(rows) && k < |rows| && rows[k].expiresAt == now
    ensures !IsExpired(rows[k], now)
    ensures GetRoute(rows, rows[k].fromPlaceId, rows[k].toPlaceId, now) == Ok(None)
  {
    var from, to := rows[k].fromPlaceId, rows[k].toPlaceId;
    forall x | x in rows && x.fromPlaceId == from && x.toPlaceId == to
      ensures x.expiresAt <= now
    {
      var j :| 0 <= j < |rows| && rows[j] == x;
      assert j == k by {
        if j < k {} else if k < j {}
      }
    }
  }

  /** Before the expiry instant the entry is live and returned; after it,
      it is expired and not returned. */
  lemma LiveUntilExpiry(rows: seq<CacheRow>, k: nat, now: int)
    requires UniquePairs(rows) && k < |rows|
    ensures now < rows[k].expiresAt ==> GetRoute(rows, rows[k].fromPlaceId, rows[k].toPlaceId, now) == Ok(Some(rows[k]))
    ensures IsExpired(rows[k], now) ==> GetRoute(rows, rows[k].fromPlaceId, rows[k].toPlaceId, now) == Ok(None)
  {
    var from, to := rows[k].fromPlaceId, rows[k].toPlaceId;
    forall x | x in rows && x.fromPlaceId == from && x.toPlaceId == to
      ensures x == rows[k]
    {
      var j :| 0 <= j < |rows| && rows[j] == x;
      assert j == k by {
        if j < k {} else if k < j {}
      }
    }
    if now < rows[k].expiresAt {
      GetRouteNeverRaises(rows, from, to, now);
    }
  }

  function IndexOfRow(rows: seq<CacheRow>, id: int): (r: Option<nat>)
    ensures r.Some? ==> r.value < |rows| && rows[r.value].id == id
    ensures r.None? <==> forall k :: 0 <= k < |rows| ==> rows[k].id != id
    decreases |rows|
  {
    if rows == [] then None
    else if rows[0].id == id then Some(0)
    else match IndexOfRow(rows[1..], id)
      case None => None
      case Some(k) => Some(k + 1)
  }

  /** Whether a row other than the one at `skip` already holds the pair. */
  predicate PairTaken(rows: seq<CacheRow>, from: string, to: string, skip: Option<nat>) {
    exists k :: 0 <= k < |rows| && Some(k) != skip && rows[k].fromPlaceId == from && rows[k].toPlaceId == to
  }

  function RowOf(d: Draft, id: int, now: int): CacheRow {
    CacheRow(id, d.fromPlaceId, d.toPlaceId, d.durationMin, d.distanceKm, d.polyline, ExpiryOnSave(d, now))
  }

  /** The route_cache table. */
  class CacheTable {
    var rows: seq<CacheRow>
    var nextId: int

    ghost predicate Valid()
      reads this
    {
      UniquePairs(rows) && UniqueRowIds(rows) && forall k :: 0 <= k < |rows| ==> rows[k].id < nextId
    }

    constructor()
      ensures Valid() && rows == [] && nextId == 1
    {
      rows := [];
      nextId := 1;
    }

    /** `save`: the expiry is filled in when unset, then the row is
        updated in place (an existing primary key) or inserted; either is
        refused when another row already holds the pair. */
    method Save(d: Draft, now: int) returns (r: Result<CacheRow, CacheError>)
      requires Valid()
      modifies this
      ensures Valid()
      ensures r.Err? ==> r.error == IntegrityError && rows == old(rows) && nextId == old(nextId)
      ensures var idx := if d.id.Some? then IndexOfRow(old(rows), d.id.value) else None;
        (r.Err? <==> PairTaken(old(rows), d.fromPlaceId, d.toPlaceId, idx)) &&
        (r.Ok? && idx.Some? ==> r.value == RowOf(d, d.id.value, now) && rows == old(rows)[idx.value := r.value]) &&
        (r.Ok? && d.id.Some? && idx.None? ==> r.value == RowOf(d, d.id.value, now) && rows == old(rows) + [r.value]) &&
        (r.Ok? && d.id.None? ==> r.value == RowOf(d, old(nextId), now) && rows == old(rows) + [r.value])
      ensures r.Ok? ==> r.value.expiresAt == ExpiryOnSave(d, now)
    {
      var idx := if d.id.Some? then IndexOfRow(rows, d.id.value) else None;
      if PairTaken(rows, d.fromPlaceId, d.toPlaceId, idx) {
        return Err(IntegrityError);
      }
      var id := if d.id.Some? then d.id.value else nextId;
      var row := RowOf(d, id, now);
      if idx.Some? {
        rows := rows[idx.value := row];
      } else {
        rows := rows + [row];
        nextId := if id + 1 > nextId then id + 1 else nextId;
      }
      r := Ok(row);
    }
  }
}
