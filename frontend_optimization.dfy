/** The guest-mode route optimizer of the frontend (`utils/optimization.ts`):
    nearest-neighbour from the first place by straight-line distance, then
    2-opt by the provider's leg distances between consecutive places (no
    start location), then a summary. The straight-line distance and the
    provider's leg distance are function parameters. */
module FrontendOptimization {
  import opened Common
  import opened FrontendTypes
  import RouteOptimizer

  // ---------------------------------------------------------------------
  // nearestNeighborOptimization

  /** `splice(k, 1)`: the list without its k-th element. */
  function RemoveAt<P>(xs: seq<P>, k: nat): (r: seq<P>)
    requires k < |xs|
    ensures |r| == |xs| - 1
    ensures forall j :: 0 <= j < |r| ==> r[j] == if j < k then xs[j] else xs[j + 1]
  {
    xs[..k] + xs[k + 1..]
  }

  /** Removing the element at k is removing the first occurrence of its value
      when no earlier element equals it. */
  lemma {:induction false} RemoveAtIsRemoveFirst<P>(xs: seq<P>, k: nat)
    requires k < |xs|
    requires forall j :: 0 <= j < k ==> xs[j] != xs[k]
    ensures RemoveAt(xs, k) == RouteOptimizer.RemoveFirst(xs, xs[k])
    decreases k
  {
    if k == 0 {
      assert xs[..0] + xs[1..] == xs[1..];
    } else {
      var tail := xs[1..];
      assert tail[k - 1] == xs[k];
      RemoveAtIsRemoveFirst(tail, k - 1);
      RemoveAtTail(xs, k);
    }
  }

  lemma RemoveAtTail<P>(xs: seq<P>, k: nat)
    requires 0 < k < |xs|
    ensures RemoveAt(xs, k) == [xs[0]] + RemoveAt(xs[1..], k - 1)
  {
    assert xs[..k] == [xs[0]] + xs[1..][..k - 1];
    assert xs[k + 1..] == xs[1..][k..];
  }

  /** The index the inner loop picks is the first of least distance, so the
      splice removes what Python's `remove` of that place would. */
  lemma NearestRemoval<P>(dist: (P, P) -> real, current: P, xs: seq<P>)
    requires |xs| > 0
    ensures RemoveAt(xs, RouteOptimizer.ArgMin(dist, current, xs))
         == RouteOptimizer.RemoveFirst(xs, xs[RouteOptimizer.ArgMin(dist, current, xs)])
  {
    var k := RouteOptimizer.ArgMin(dist, current, xs);
    forall j | 0 <= j < k
      ensures xs[j] != xs[k]
    {
      assert dist(current, xs[j]) > dist(current, xs[k]);
    }
    RemoveAtIsRemoveFirst(xs, k);
  }

  /** The inner loop: the first index of least distance from `current`, a
      strictly smaller distance replacing the one so far (`Infinity` at the
      start is `None`). */
  method FindNearest<P>(dist: (P, P) -> real, current: P, remaining: seq<P>) returns (nearestIndex: nat)
    requires |remaining| > 0
    ensures nearestIndex == RouteOptimizer.ArgMin(dist, current, remaining)
  {
    nearestIndex := 0;
    var minDistance: Option<real> := None;
    for i := 0 to |remaining|
      invariant i == 0 ==> minDistance.None? && nearestIndex == 0
      invariant i > 0 ==>
        nearestIndex == RouteOptimizer.ArgMin(dist, current, remaining[..i]) &&
        minDistance == Some(dist(current, remaining[nearestIndex]))
    {
      var prefix := remaining[..i + 1];
      assert prefix[..i] == remaining[..i] && prefix[i] == remaining[i];
      var distance := dist(current, remaining[i]);
      if minDistance.None? || distance < minDistance.value {
        minDistance := Some(distance);
        nearestIndex := i;
      }
    }
    assert remaining[..|remaining|] == remaining;
  }

  /** One step of the construction, stated with the splice at the nearest
      index. */
  lemma NearestStep<P>(dist: (P, P) -> real, current: P, remaining: seq<P>, k: nat, visited: seq<P>, whole: seq<P>)
    requires |remaining| > 0 && k == RouteOptimizer.ArgMin(dist, current, remaining)
    requires visited + RouteOptimizer.NearestNeighborRoute(dist, current, remaining) == whole
    ensures (visited + [remaining[k]]) +
      RouteOptimizer.NearestNeighborRoute(dist, remaining[k], RemoveAt(remaining, k)) == whole
  {
    NearestUnfold(dist, current, remaining, k);
    ConcatStep(visited, remaining[k],
      RouteOptimizer.NearestNeighborRoute(dist, remaining[k], RemoveAt(remaining, k)),
      RouteOptimizer.NearestNeighborRoute(dist, current, remaining), whole);
  }

  lemma NearestUnfold<P>(dist: (P, P) -> real, current: P, remaining: seq<P>, k: nat)
    requires |remaining| > 0 && k == RouteOptimizer.ArgMin(dist, current, remaining)
    ensures RouteOptimizer.NearestNeighborRoute(dist, current, remaining)
         == [remaining[k]] + RouteOptimizer.NearestNeighborRoute(dist, remaining[k], RemoveAt(remaining, k))
  {
    NearestRemoval(dist, current, remaining);
  }

  lemma ConcatStep<T>(visited: seq<T>, x: T, after: seq<T>, mid: seq<T>, whole: seq<T>)
    requires mid == [x] + after && visited + mid == whole
    ensures (visited + [x]) + after == whole
  {
  }

  /** The `while` loop: from `first`, repeatedly splices out the nearest
      remaining place and moves there. */
  method VisitNearest<P>(dist: (P, P) -> real, first: P, rest: seq<P>) returns (visited: seq<P>)
    ensures visited == RouteOptimizer.NearestNeighborRoute(dist, first, rest)
  {
    var remaining := rest;
    visited := [];
    var current := first;
    while |remaining| > 0
      invariant visited + RouteOptimizer.NearestNeighborRoute(dist, current, remaining)
             == RouteOptimizer.NearestNeighborRoute(dist, first, rest)
      decreases |remaining|
    {
      var nearestIndex := FindNearest(dist, current, remaining);
      NearestStep(dist, current, remaining, nearestIndex, visited, RouteOptimizer.NearestNeighborRoute(dist, first, rest));
      var nearest := remaining[nearestIndex];
      remaining := RemoveAt(remaining, nearestIndex);
      visited := visited + [nearest];
      current := nearest;
    }
  }

  /** `nearestNeighborOptimization`: at most one place comes back as it is;
      otherwise the first place stays first and the rest is the
      nearest-neighbour route from it, so every place appears once and each
      step goes to a nearest place not yet visited. */
  method NearestNeighborOptimization<P>(dist: (P, P) -> real, places: seq<P>) returns (optimized: seq<P>)
    ensures |places| <= 1 ==> optimized == places
    ensures |places| > 1 ==>
      optimized == [places[0]] + RouteOptimizer.NearestNeighborRoute(dist, places[0], places[1..])
    ensures multiset(optimized) == multiset(places)
    ensures |places| > 0 ==>
      optimized[0] == places[0] && RouteOptimizer.Greedy(dist, places[0], optimized[1..])
  {
    if |places| <= 1 {
      return places;
    }
    var first := places[0];
    var rest := VisitNearest(dist, first, places[1..]);
    optimized := [first] + rest;
    RouteOptimizer.NearestNeighborPermutes(dist, first, places[1..]);
    RouteOptimizer.NearestNeighborGreedy(dist, first, places[1..]);
    assert places == [first] + places[1..];
    assert optimized[1..] == rest;
  }

  // ---------------------------------------------------------------------
  // twoOptReverse, calculateRouteDistance, twoOptSwap

  /** `twoOptReverse`: reverses positions i+1..j, which is the backend's
      reversal of the segment i+1..j. */
  function TwoOptReverse<P>(route: seq<P>, i: nat, j: nat): (r: seq<P>)
    requires i < j < |route|
    ensures r == RouteOptimizer.TwoOptSwap(route, i + 1, j)
  {
    var r := route[..i + 1] + RouteOptimizer.Reverse(route[i + 1..j + 1]) + route[j + 1..];
    assert forall m :: 0 <= m < |route| ==> r[m] == RouteOptimizer.TwoOptSwap(route, i + 1, j)[m];
    r
  }

  /** The length of a path: the sum of the legs between consecutive places,
      with no leg from a start location. */
  function PathLength<P>(legDist: (P, P) -> real, places: seq<P>): real {
    if |places| == 0 then 0.0 else RouteOptimizer.RouteLength(legDist, places[0], places[1..])
  }

  /** Prepending a place adds exactly its leg to the old first place. */
  lemma PathLengthCons<P>(legDist: (P, P) -> real, p: P, places: seq<P>)
    requires |places| > 0
    ensures PathLength(legDist, [p] + places) == legDist(p, places[0]) + PathLength(legDist, places)
  {
    assert ([p] + places)[1..] == places;
    assert places == [places[0]] + places[1..];
    RouteOptimizer.RouteLengthCons(legDist, p, places[0], places[1..]);
  }

  /** `calculateRouteDistance`: the accumulator over consecutive legs. */
  method CalculateRouteDistance<P>(legDist: (P, P) -> real, places: seq<P>) returns (total: real)
    ensures total == PathLength(legDist, places)
  {
    total := 0.0;
    if |places| == 0 {
      return 0.0;
    }
    for i := 0 to |places| - 1
      invariant total == RouteOptimizer.RouteLength(legDist, places[0], places[1..i + 1])
    {
      var legs := places[1..i + 2];
      assert legs[..i] == places[1..i + 1] && legs[i] == places[i + 1];
      assert RouteOptimizer.LegStart(places[0], legs, i) == places[i];
      total := total + legDist(places[i], places[i + 1]);
    }
    assert places[1..|places|] == places[1..];
  }

  /** No reversal of positions i+1..j, j >= i+2, shortens the path. */
  ghost predicate ReversalLocalOptimum<P>(legDist: (P, P) -> real, route: seq<P>) {
    forall i, j :: 0 <= i && i + 2 <= j < |route| ==>
      PathLength(legDist, TwoOptReverse(route, i, j)) >= PathLength(legDist, route)
  }

  /** Reversing positions i+1..j, j >= i+2, makes the path strictly
      shorter. */
  ghost predicate Shortens<P>(legDist: (P, P) -> real, route: seq<P>, i: nat, j: nat) {
    i + 2 <= j < |route| && PathLength(legDist, TwoOptReverse(route, i, j)) < PathLength(legDist, route)
  }

  /** No reversal (i', j') before (i, j) in the pass's order shortens the
      path. */
  ghost predicate NoneShorterBefore<P>(legDist: (P, P) -> real, route: seq<P>, i: nat, j: nat) {
    forall i', j' :: 0 <= i' && i' + 2 <= j' < |route| && (i' < i || (i' == i && j' < j)) ==> !Shortens(legDist, route, i', j')
  }

  lemma NoneShorterStep<P>(legDist: (P, P) -> real, route: seq<P>, i: nat, j: nat)
    requires i + 2 <= j < |route| && NoneShorterBefore(legDist, route, i, j)
    requires !Shortens(legDist, route, i, j)
    ensures NoneShorterBefore(legDist, route, i, j + 1)
  {
  }

  lemma NoneShorterNextRow<P>(legDist: (P, P) -> real, route: seq<P>, i: nat)
    requires NoneShorterBefore(legDist, route, i, |route|)
    ensures NoneShorterBefore(legDist, route, i + 1, i + 3)
  {
  }

  lemma NoneShorterAll<P>(legDist: (P, P) -> real, route: seq<P>)
    requires |route| >= 1 && NoneShorterBefore(legDist, route, |route| - 1, |route| + 1)
    ensures ReversalLocalOptimum(legDist, route)
  {
    forall i, j | 0 <= i && i + 2 <= j < |route|
      ensures PathLength(legDist, TwoOptReverse(route, i, j)) >= PathLength(legDist, route)
    {
      assert !Shortens(legDist, route, i, j);
    }
  }

  /** One pass of `twoOptSwap` over every i and every j >= i+2, the path's
      length measured afresh before each comparison and a reversal taken
      when strictly shorter. `improved` says whether one was taken; if not
      the route is unchanged and no single reversal shortens it. */
  method TwoOptPass<P>(legDist: (P, P) -> real, route0: seq<P>) returns (route: seq<P>, improved: bool)
    ensures |route| == |route0| && multiset(route) == multiset(route0)
    ensures |route0| > 0 ==> route[0] == route0[0]
    ensures improved ==> PathLength(legDist, route) < PathLength(legDist, route0)
    ensures !improved ==> route == route0 && ReversalLocalOptimum(legDist, route0)
  {
    route, improved := route0, false;
    if |route0| == 0 {
      return;
    }
    for i := 0 to |route| - 1
      invariant |route| == |route0| && multiset(route) == multiset(route0)
      invariant route[0] == route0[0]
      invariant improved ==> PathLength(legDist, route) < PathLength(legDist, route0)
      invariant !improved ==> route == route0 && NoneShorterBefore(legDist, route0, i, i + 2)
    {
      route, improved := TwoOptRow(legDist, route0, route, improved, i);
    }
    if !improved {
      NoneShorterAll(legDist, route0);
    }
  }

  /** Row `i` of a pass: every j >= i+2 in turn, from the route and flag
      the earlier rows left. */
  method TwoOptRow<P>(legDist: (P, P) -> real, route0: seq<P>, route1: seq<P>, improved1: bool, i: nat)
    returns (route: seq<P>, improved: bool)
    requires i + 1 < |route0|
    requires |route1| == |route0| && multiset(route1) == multiset(route0) && route1[0] == route0[0]
    requires improved1 ==> PathLength(legDist, route1) < PathLength(legDist, route0)
    requires !improved1 ==> route1 == route0 && NoneShorterBefore(legDist, route0, i, i + 2)
    ensures |route| == |route0| && multiset(route) == multiset(route0) && route[0] == route0[0]
    ensures improved ==> PathLength(legDist, route) < PathLength(legDist, route0)
    ensures !improved ==> route == route0 && NoneShorterBefore(legDist, route0, i + 1, i + 3)
  {
    route, improved := route1, improved1;
    for j := i + 2 to |route|
      invariant |route| == |route0| && multiset(route) == multiset(route0)
      invariant route[0] == route0[0]
      invariant improved ==> PathLength(legDist, route) < PathLength(legDist, route0)
      invariant !improved ==> route == route0 && NoneShorterBefore(legDist, route0, i, j)
    {
      var newRoute := TwoOptReverse(route, i, j);
      var currentDistance := CalculateRouteDistance(legDist, route);
      var newDistance := CalculateRouteDistance(legDist, newRoute);
      if newDistance < currentDistance {
        RouteOptimizer.TwoOptSwapPermutes(route, i + 1, j);
        route := newRoute;
        improved := true;
      } else if !improved {
        NoneShorterStep(legDist, route0, i, j);
      }
    }
    if !improved {
      NoneShorterNextRow(legDist, route0, i);
    }
  }

  /** `twoOptSwap`: at most two places come back as they are. Otherwise
      passes run while the previous one improved, at most `iterations` of
      them. The result rearranges the places and is no longer than the
      input path; when a pass found nothing to take, no single reversal
      shortens it. `passes` counts the passes made. */
  method TwoOptSwap<P>(legDist: (P, P) -> real, places: seq<P>, iterations: int)
    returns (route: seq<P>, ghost passes: nat, ghost converged: bool)
    ensures |places| <= 2 ==> route == places
    ensures multiset(route) == multiset(places)
    ensures |places| > 0 ==> route[0] == places[0]
    ensures PathLength(legDist, route) <= PathLength(legDist, places)
    ensures passes <= if iterations > 0 then iterations else 0
    ensures |places| > 2 && !converged ==> passes == if iterations > 0 then iterations else 0
    ensures converged ==> ReversalLocalOptimum(legDist, route)
  {
    if |places| <= 2 {
      return places, 0, false;
    }
    route := places;
    assert |route| == |multiset(route)|;
    var improved := true;
    var iterCount := 0;
    while improved && iterCount < iterations
      invariant 0 <= iterCount <= if iterations > 0 then iterations else 0
      invariant |route| == |places| && multiset(route) == multiset(places)
      invariant route[0] == places[0]
      invariant PathLength(legDist, route) <= PathLength(legDist, places)
      invariant !improved ==> ReversalLocalOptimum(legDist, route)
      decreases iterations - iterCount
    {
      iterCount := iterCount + 1;
      var next;
      next, improved := TwoOptPass(legDist, route);
      route := next;
    }
    passes, converged := iterCount, !improved;
  }

  // ---------------------------------------------------------------------
  // optimizeRoute

  /** The places renumbered 1.0, 2.0, ... in their new order. */
  function WithOrders(route: seq<Place>): (r: seq<Place>)
    ensures |r| == |route|
    ensures forall k :: 0 <= k < |r| ==> r[k] == route[k].(order := (k + 1) as real)
  {
    seq(|route|, k requires 0 <= k < |route| => route[k].(order := (k + 1) as real))
  }

  /** `Math.round((original - optimized) / original * 100)`, and 0 when the
      original length is not positive: within 0..100 when the optimized
      path is not longer, and not positive when it is longer. */
  function ImprovementPercent(original: real, optimized: real): (p: int)
    ensures original <= 0.0 ==> p == 0
    ensures original > 0.0 && 0.0 <= optimized <= original ==> 0 <= p <= 100
    ensures original > 0.0 && optimized > original ==> p <= 0
  {
    if original > 0.0 then
      var x := (original - optimized) / original * 100.0;
      assert 0.0 <= optimized <= original ==> 0.0 <= x <= 100.0;
      Round(x)
    else 0
  }

  datatype OptimizedResult = OptimizedResult(places: seq<Place>, totalDuration: int, improvementPercent: int)

  /** `optimizeRoute`: nearest-neighbour by straight-line distance, then two
      passes of 2-opt by leg distance. The places come back renumbered
      1, 2, ... in the new order, rearranging the input; the duration is the
      new length times 12 minutes per kilometre, rounded up; the
      improvement compares the new length with the input's. */
  method OptimizeRoute(dist: (Place, Place) -> real, legDist: (Place, Place) -> real, places: seq<Place>)
    returns (res: OptimizedResult, ghost route: seq<Place>)
    ensures res.places == WithOrders(route)
    ensures multiset(route) == multiset(places)
    ensures |places| > 0 ==> route[0] == places[0]
    ensures |places| > 1 ==>
      PathLength(legDist, route) <=
      PathLength(legDist, [places[0]] + RouteOptimizer.NearestNeighborRoute(dist, places[0], places[1..]))
    ensures res.totalDuration == Ceil(PathLength(legDist, route) * 12.0)
    ensures res.improvementPercent ==
      ImprovementPercent(PathLength(legDist, places), PathLength(legDist, route))
  {
    var originalDistance := CalculateRouteDistance(legDist, places);
    var optimized := NearestNeighborOptimization(dist, places);
    ghost var passes, converged;
    optimized, passes, converged := TwoOptSwap(legDist, optimized, 2);
    var newDistance := CalculateRouteDistance(legDist, optimized);
    var totalDuration := Ceil(newDistance * 12.0);
    route := optimized;
    var improvementPercent := ImprovementPercent(originalDistance, newDistance);
    res := OptimizedResult(WithOrders(optimized), totalDuration, improvementPercent);
  }
}
