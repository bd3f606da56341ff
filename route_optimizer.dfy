/** `RouteOptimizer` of the routes service: nearest-neighbour construction,
    the 2-opt segment reversal, the length of a route from a start point, and
    bounded first-improvement 2-opt passes. Places and the start are points
    of any type; the distance between two points is a parameter, so nothing
    depends on the haversine formula. */
module RouteOptimizer {
  import opened Common

  // ---------------------------------------------------------------------
  // two_opt_swap

  function Reverse<T>(s: seq<T>): (r: seq<T>)
    ensures |r| == |s|
    ensures forall j :: 0 <= j < |s| ==> r[j] == s[|s| - 1 - j]
    decreases |s|
  {
    if s == [] then [] else Reverse(s[1..]) + [s[0]]
  }

  lemma {:induction false} ReversePermutes<T>(s: seq<T>)
    ensures multiset(Reverse(s)) == multiset(s)
    decreases |s|
  {
    if s != [] {
      ReversePermutes(s[1..]);
      assert s == [s[0]] + s[1..];
    }
  }

  /** `route[:i] + route[i:k+1][::-1] + route[k+1:]`: positions i..k
      reversed, every other position kept. */
  function TwoOptSwap<T>(route: seq<T>, i: nat, k: nat): (r: seq<T>)
    requires i <= k < |route|
    ensures |r| == |route|
    ensures forall j :: 0 <= j < |route| ==> r[j] == if i <= j <= k then route[i + k - j] else route[j]
  {
    var r := route[..i] + Reverse(route[i..k + 1]) + route[k + 1..];
    assert forall j :: i <= j <= k ==> r[j] == Reverse(route[i..k + 1])[j - i];
    r
  }

  /** The swap only rearranges the route. */
  lemma TwoOptSwapPermutes<T>(route: seq<T>, i: nat, k: nat)
    requires i <= k < |route|
    ensures multiset(TwoOptSwap(route, i, k)) == multiset(route)
  {
    ReversePermutes(route[i..k + 1]);
    assert route == route[..i] + route[i..k + 1] + route[k + 1..];
  }

  /** Swapping the same positions twice gives the route back. */
  lemma TwoOptSwapInvolution<T>(route: seq<T>, i: nat, k: nat)
    requires i <= k < |route|
    ensures TwoOptSwap(TwoOptSwap(route, i, k), i, k) == route
  {
    var s := TwoOptSwap(route, i, k);
    var r := TwoOptSwap(s, i, k);
    forall j | 0 <= j < |route|
      ensures r[j] == route[j]
    {
      if i <= j <= k {
        var m := i + k - j;
        assert i <= m <= k && r[j] == s[m];
      } else {
        assert r[j] == s[j];
      }
    }
  }

  // ---------------------------------------------------------------------
  // calculate_route_distance

  /** Where the leg to the j-th place starts: the start point for the first
      place, the previous place otherwise. */
  function LegStart<P>(start: P, route: seq<P>, j: nat): P
    requires j < |route|
  {
    if j == 0 then start else route[j - 1]
  }

  /** The length of the route from `start` through every place in turn. */
  function RouteLength<P>(dist: (P, P) -> real, start: P, route: seq<P>): real
    decreases |route|
  {
    if route == [] then 0.0
    else RouteLength(dist, start, route[..|route| - 1]) + dist(LegStart(start, route, |route| - 1), route[|route| - 1])
  }

  /** The length is the first leg plus the length of the rest from the
      first place: dist(start, p0) + the sum over consecutive places. */
  lemma {:induction false} RouteLengthCons<P>(dist: (P, P) -> real, start: P, p: P, rest: seq<P>)
    ensures RouteLength(dist, start, [p] + rest) == dist(start, p) + RouteLength(dist, p, rest)
    decreases |rest|
  {
    if rest != [] {
      var r := [p] + rest;
      assert r[..|r| - 1] == [p] + rest[..|rest| - 1];
      RouteLengthCons(dist, start, p, rest[..|rest| - 1]);
      assert LegStart(start, r, |r| - 1) == LegStart(p, rest, |rest| - 1);
    } else {
      assert ([p] + rest)[..0] == [];
    }
  }

  /** `calculate_route_distance`: the accumulator over the legs. */
  method RouteDistance<P>(dist: (P, P) -> real, start: P, places: seq<P>) returns (total: real)
    ensures total == RouteLength(dist, start, places)
  {
    if |places| == 0 {
      return 0.0;
    }
    total := 0.0;
    var current := start;
    for i := 0 to |places|
      invariant total == RouteLength(dist, start, places[..i])
      invariant current == if i == 0 then start else places[i - 1]
    {
      var prefix := places[..i + 1];
      assert prefix[..i] == places[..i] && prefix[i] == places[i];
      assert LegStart(start, prefix, i) == current;
      total := total + dist(current, places[i]);
      current := places[i];
    }
    assert places[..|places|] == places;
  }

  // ---------------------------------------------------------------------
  // nearest_neighbor

  /** Python's `min(xs, key=lambda p: dist(current, p))`: the first index of
      least distance. */
  function ArgMin<P>(dist: (P, P) -> real, current: P, xs: seq<P>): (k: nat)
    requires |xs| > 0
    ensures k < |xs|
    ensures forall j :: 0 <= j < |xs| ==> dist(current, xs[k]) <= dist(current, xs[j])
    ensures forall j :: 0 <= j < k ==> dist(current, xs[j]) > dist(current, xs[k])
    decreases |xs|
  {
    if |xs| == 1 then 0
    else
      var k := ArgMin(dist, current, xs[..|xs| - 1]);
      if dist(current, xs[|xs| - 1]) < dist(current, xs[k]) then |xs| - 1 else k
  }

  /** Python's `list.remove(x)`: drops the first element equal to `x`. */
  function RemoveFirst<P(==)>(xs: seq<P>, x: P): (r: seq<P>)
    requires x in xs
    ensures |r| == |xs| - 1
    ensures multiset(r) == multiset(xs) - multiset{x}
    decreases |xs|
  {
    assert xs == [xs[0]] + xs[1..];
    if xs[0] == x then xs[1..] else [xs[0]] + RemoveFirst(xs[1..], x)
  }

  /** The route the nearest-neighbour construction builds from `current`
      over the unvisited places. */
  function NearestNeighborRoute<P(==)>(dist: (P, P) -> real, current: P, unvisited: seq<P>): (r: seq<P>)
    decreases |unvisited|
  {
    if unvisited == [] then []
    else
      var nearest := unvisited[ArgMin(dist, current, unvisited)];
      [nearest] + NearestNeighborRoute(dist, nearest, RemoveFirst(unvisited, nearest))
  }

  /** The construction visits every place exactly once. */
  lemma {:induction false} NearestNeighborPermutes<P>(dist: (P, P) -> real, current: P, unvisited: seq<P>)
    ensures multiset(NearestNeighborRoute(dist, current, unvisited)) == multiset(unvisited)
    decreases |unvisited|
  {
    if unvisited != [] {
      var nearest := unvisited[ArgMin(dist, current, unvisited)];
      NearestNeighborPermutes(dist, nearest, RemoveFirst(unvisited, nearest));
    }
  }

  /** Each place of the route is a nearest one, from where its leg starts,
      among the places not yet visited: the first is nearest to `start` of
      all, and the rest is greedy from the first. */
  ghost predicate Greedy<P>(dist: (P, P) -> real, start: P, route: seq<P>)
    decreases |route|
  {
    route != [] ==>
      (forall m :: 0 <= m < |route| ==> dist(start, route[0]) <= dist(start, route[m])) &&
      Greedy(dist, route[0], route[1..])
  }

  lemma {:induction false} NearestNeighborGreedy<P>(dist: (P, P) -> real, current: P, unvisited: seq<P>)
    ensures Greedy(dist, current, NearestNeighborRoute(dist, current, unvisited))
    decreases |unvisited|
  {
    if unvisited != [] {
      var nearest := unvisited[ArgMin(dist, current, unvisited)];
      var rest0 := RemoveFirst(unvisited, nearest);
      var rest := NearestNeighborRoute(dist, nearest, rest0);
      NearestNeighborGreedy(dist, nearest, rest0);
      NearestNeighborPermutes(dist, nearest, rest0);
      NearestBeatsRest(dist, current, unvisited, rest);
      GreedyCons(dist, current, nearest, rest);
    }
  }

  lemma GreedyCons<P>(dist: (P, P) -> real, current: P, p: P, rest: seq<P>)
    requires Greedy(dist, p, rest)
    requires forall m :: 0 <= m < |rest| ==> dist(current, p) <= dist(current, rest[m])
    ensures Greedy(dist, current, [p] + rest)
  {
    var r := [p] + rest;
    assert r[1..] == rest;
    forall m | 0 <= m < |r|
      ensures dist(current, r[0]) <= dist(current, r[m])
    {
      if m > 0 {
        assert r[m] == rest[m - 1];
      }
    }
  }

  /** The nearest place is no farther than any place left after it. */
  lemma NearestBeatsRest<P>(dist: (P, P) -> real, current: P, unvisited: seq<P>, rest: seq<P>)
    requires unvisited != []
    requires multiset(rest) ==
      multiset(RemoveFirst(unvisited, unvisited[ArgMin(dist, current, unvisited)]))
    ensures forall m :: 0 <= m < |rest| ==>
      dist(current, unvisited[ArgMin(dist, current, unvisited)]) <= dist(current, rest[m])
  {
    var k := ArgMin(dist, current, unvisited);
    forall m | 0 <= m < |rest|
      ensures dist(current, unvisited[k]) <= dist(current, rest[m])
    {
      assert rest[m] in multiset(rest);
      assert rest[m] in multiset(unvisited);
      var j :| 0 <= j < |unvisited| && unvisited[j] == rest[m];
    }
  }

  /** `nearest_neighbor`: repeatedly moves to the nearest unvisited place. */
  method NearestNeighbor<P(==)>(dist: (P, P) -> real, start: P, places: seq<P>) returns (route: seq<P>)
    ensures route == NearestNeighborRoute(dist, start, places)
  {
    if |places| == 0 {
      return [];
    }
    var unvisited := places;
    route := [];
    var current := start;
    while |unvisited| > 0
      invariant route + NearestNeighborRoute(dist, current, unvisited) == NearestNeighborRoute(dist, start, places)
      decreases |unvisited|
    {
      var nearest := unvisited[ArgMin(dist, current, unvisited)];
      route := route + [nearest];
      unvisited := RemoveFirst(unvisited, nearest);
      current := nearest;
    }
  }

  // ---------------------------------------------------------------------
  // optimize

  /** No single 2-opt reversal of the route shortens it. */
  ghost predicate TwoOptLocalOptimum<P>(dist: (P, P) -> real, start: P, route: seq<P>) {
    forall i, k :: 0 <= i < k < |route| ==>
      RouteLength(dist, start, TwoOptSwap(route, i, k)) >= RouteLength(dist, start, route)
  }

  /** `optimize`: a list of at most one place comes back as it is. Otherwise
      the nearest-neighbour route is improved by at most `iterations` passes
      over every reversal i < k, a reversal being taken whenever it is
      strictly shorter than the best so far, stopping after the first pass
      that takes none. The result rearranges the places, is no longer than
      the nearest-neighbour route, and when the passes stopped early no
      single reversal shortens it. `passes` counts the passes made. */
  method Optimize<P(==)>(dist: (P, P) -> real, start: P, places: seq<P>, iterations: int)
    returns (route: seq<P>, ghost passes: nat, ghost converged: bool)
    ensures |places| <= 1 ==> route == places
    ensures multiset(route) == multiset(places)
    ensures |places| > 1 ==>
      RouteLength(dist, start, route) <= RouteLength(dist, start, NearestNeighborRoute(dist, start, places))
    ensures passes <= if iterations > 0 then iterations else 0
    ensures !converged ==> passes == if iterations > 0 then iterations else 0
    ensures converged ==> TwoOptLocalOptimum(dist, start, route)
  {
    if |places| <= 1 {
      return places, 0, true;
    }
    route := NearestNeighbor(dist, start, places);
    NearestNeighborPermutes(dist, start, places);
    assert |route| == |multiset(route)|;
    ghost var initial := route;
    var best := RouteDistance(dist, start, route);
    passes, converged := 0, false;
    var pass := 0;
    while pass < iterations
      invariant 0 <= pass && passes == pass
      invariant pass <= if iterations > 0 then iterations else 0
      invariant |route| == |places| && multiset(route) == multiset(places)
      invariant best == RouteLength(dist, start, route) <= RouteLength(dist, start, initial)
    {
      var improved := OptimizePass(dist, start, route, best);
      if improved.Some? {
        route, best := improved.value.0, improved.value.1;
      }
      pass := pass + 1;
      passes := pass;
      if improved.None? {
        converged := true;
        break;
      }
    }
  }

  /** Reversing positions i..k of the route makes it strictly shorter. */
  ghost predicate Shortens<P>(dist: (P, P) -> real, start: P, route: seq<P>, i: nat, k: nat) {
    i < k < |route| && RouteLength(dist, start, TwoOptSwap(route, i, k)) < RouteLength(dist, start, route)
  }

  /** No reversal (i', k') before (i, k) in the pass's order shortens the
      route. */
  ghost predicate NoneShorterBefore<P>(dist: (P, P) -> real, start: P, route: seq<P>, i: nat, k: nat) {
    forall i', k' :: 0 <= i' < k' < |route| && (i' < i || (i' == i && k' < k)) ==> !Shortens(dist, start, route, i', k')
  }

  lemma NoneShorterStep<P>(dist: (P, P) -> real, start: P, route: seq<P>, i: nat, k: nat)
    requires i < k < |route| && NoneShorterBefore(dist, start, route, i, k)
    requires !Shortens(dist, start, route, i, k)
    ensures NoneShorterBefore(dist, start, route, i, k + 1)
  {
  }

  lemma NoneShorterNextRow<P>(dist: (P, P) -> real, start: P, route: seq<P>, i: nat)
    requires i < |route| && NoneShorterBefore(dist, start, route, i, |route|)
    ensures NoneShorterBefore(dist, start, route, i + 1, i + 2)
  {
  }

  lemma NoneShorterAll<P>(dist: (P, P) -> real, start: P, route: seq<P>)
    requires |route| >= 1 && NoneShorterBefore(dist, start, route, |route| - 1, |route|)
    ensures TwoOptLocalOptimum(dist, start, route)
  {
    forall i, k | 0 <= i < k < |route|
      ensures RouteLength(dist, start, TwoOptSwap(route, i, k)) >= RouteLength(dist, start, route)
    {
      assert !Shortens(dist, start, route, i, k);
    }
  }

  /** One pass of `optimize` over every reversal i < k of the route of
      length `best`: the improved route and its length, or None when no
      reversal was taken, and then none is shorter. */
  method OptimizePass<P>(dist: (P, P) -> real, start: P, route0: seq<P>, best0: real)
    returns (r: Option<(seq<P>, real)>)
    requires |route0| >= 2 && best0 == RouteLength(dist, start, route0)
    ensures r.None? ==> TwoOptLocalOptimum(dist, start, route0)
    ensures r.Some? ==>
      |r.value.0| == |route0| && multiset(r.value.0) == multiset(route0) &&
      r.value.1 == RouteLength(dist, start, r.value.0) < best0
  {
    var route, best := route0, best0;
    var improved := false;
    for i := 0 to |route| - 1
      invariant |route| == |route0| && multiset(route) == multiset(route0)
      invariant best == RouteLength(dist, start, route) && (improved ==> best < best0)
      invariant !improved ==> route == route0 && NoneShorterBefore(dist, start, route0, i, i + 1)
    {
      for k := i + 1 to |route|
        invariant |route| == |route0| && multiset(route) == multiset(route0)
        invariant best == RouteLength(dist, start, route) && (improved ==> best < best0)
        invariant !improved ==> route == route0 && NoneShorterBefore(dist, start, route0, i, k)
      {
        var newRoute := TwoOptSwap(route, i, k);
        var newDistance := RouteDistance(dist, start, newRoute);
        if newDistance < best {
          TwoOptSwapPermutes(route, i, k);
          route, best := newRoute, newDistance;
          improved := true;
        } else if !improved {
          NoneShorterStep(dist, start, route0, i, k);
        }
      }
      if !improved {
        NoneShorterNextRow(dist, start, route0, i);
      }
    }
    if improved {
      r := Some((route, best));
    } else {
      NoneShorterAll(dist, start, route0);
      r := None;
    }
  }
}
