# trip_flow itinerary engine, in Dafny

trip_flow plans city trips. A trip has events, and each event has a day and a
place. The Django backend stores the events, keeps per-day ordering keys,
and works out which travel legs ("route segments") the itinerary needs. It
asks a route provider for the legs that are missing and keeps the trip's
route totals. A TypeScript frontend draws the days, as a list with drag and
drop, a daily timeline and a weekly grid. It also keeps a guest trip in a
local store and optimises a visiting order.

This project models that core and proves properties of the model:

- **The itinerary engine** (`backend/apps/events/views.py`). It covers:
  - creating an event, with its per-day `day_order` key and its
    `global_order`;
  - reordering, which recomputes the global rank and rebalances a day's
    keys;
  - the required segment pairs;
  - the diff against the stored segments;
  - reconciliation, with a provider call for each missing pair;
  - the trip totals;
  - `update`, `destroy` and `update_route`.

  The database is a set of in-memory tables (events, segments, costs and
  the trip) held by the class `Itinerary.TripStore`. A
  `transaction.atomic` block is all-or-nothing. `day_order` is a
  fixed-point integer in units of 0.0001. On that scale the step of 10.0
  is 100000 and the rebalance gap of 0.0001 is 1.
- **The route optimisers**: backend `RouteOptimizer` and frontend
  `utils/optimization.ts`. Distance is an uninterpreted function.
- **The smaller rule sets around the engine**:
  - event and trip model properties;
  - the route cache;
  - trip permissions;
  - membership operations, and shared trips;
  - the place list limits;
  - the optimise and calculate views;
  - the error envelope;
  - the order back-fill command.
- **The frontend logic**:
  - the guest trip store;
  - lane assignment on the daily timeline;
  - the place list's drag rules and time arithmetic;
  - the route segment dialog;
  - the weekly grid and the page that feeds it;
  - language detection and the route memo of the maps service.

The route provider is a function parameter. It returns a leg, or nothing
when it fails or raises. The current time, the signed-in user and request
payloads are parameters too.

## Model

| member | source | states |
|---|---|---|
| EventModel.NewEvent | backend/apps/events/models.py:16-28 | a new row has `global_order` 0 and `day_order` 10.0 (100000 on the fixed-point scale), no day and no coordinates |
| EventModel.LocationOf | backend/apps/events/models.py:112-120 | the location is absent exactly when lat or lng is null or zero; otherwise it is both coordinates |
| EventModel.DisplayTitleCases | backend/apps/events/models.py:123-131 | the title is never empty. It is `custom_title` when that is set. Otherwise it is `place_name`, with " - activity_type" when that is set. Otherwise it is "Event {order}" |
| EventModel.KeyLeTotal | backend/apps/events/models.py:95 | the (day, day_order) query order, with null days last, compares any two rows |
| EventModel.KeyLeTransitive | backend/apps/events/models.py:95 | the (day, day_order) order is transitive |
| EventModel.InsertByKeyElements | backend/apps/events/models.py:95 | inserting a row into the ordered list adds exactly that row |
| EventModel.SortByKeyProps | backend/apps/events/models.py:95 | `order_by('day', 'day_order')` gives a sorted permutation of the table |
| EventModel.SortByKeySorted | backend/apps/events/models.py:95 | the query order is sorted by (day, day_order) |
| EventModel.SortByKeyPermutes | backend/apps/events/models.py:95 | the query order holds the same rows, as a multiset |
| EventModel.SortByKeySameKeys | backend/apps/events/views.py:403 | the query order depends only on id, day and day_order, so rewriting other fields does not change it |
| EventModel.SortByKeyUnique | backend/apps/events/views.py:169 | sorting keeps ids unique and keeps exactly the table's rows |
| EventModel.IndexOfId | backend/apps/events/views.py:186 | the first position holding an id, or none exactly when no row has it |
| EventModel.FindEvent | backend/apps/events/views.py:186-190 | `events_map.get(id)`: a row with that id, or none exactly when no row has it |
| EventModel.UniqueIndex | backend/apps/events/views.py:186 | with unique ids, looking up a row's id finds that row's position |
| EventModel.OfDay | backend/apps/events/views.py:411 | `filter(day=d)`: exactly the rows of that day, in table order |
| EventModel.OfDayUnique | backend/apps/events/views.py:411 | a day's rows keep unique ids |
| TripModels.NewTrip | backend/apps/trips/models.py:9-23 | a new trip has `total_days` 1 and no route totals |
| TripModels.RouteSummaryOf | backend/apps/trips/models.py:43-49 | `route_summary` reports a null duration or distance as 0, and otherwise the stored value |
| TripModels.SummaryAfterUpdate | backend/apps/trips/models.py:43-56 | after the update, the reported summary is exactly the two sums; with no segments it is zero |
| TripModels.TotalsAppend | backend/apps/events/views.py:539-546 | the totals over two lists of segments add up |
| TripModels.RoleName | backend/apps/trips/models.py:62-66 | a role is stored as one of "owner", "editor" and "viewer" |
| TripModels.ParseRole | backend/apps/trips/models.py:62-71 | reading a stored role back accepts exactly the three choices |
| TripModels.RoleNameRoundTrip | backend/apps/trips/models.py:62-71 | writing a role and reading it back gives the same role |
| SegmentPairs.FirstDays | backend/apps/events/views.py:475-480 | the keys of `events_by_day` appear once each, and they are exactly the days of the events |
| SegmentPairs.InsertIntProps | backend/apps/events/views.py:483 | inserting into a strictly increasing list of days keeps it strictly increasing with one more element |
| SegmentPairs.SortIntsProps | backend/apps/events/views.py:483 | `sorted()` on distinct integer days gives them strictly increasing |
| SegmentPairs.SortedDaysProps | backend/apps/events/views.py:483 | sorting the day keys fails exactly when a null day is mixed with integer days, and so does computing the pairs; otherwise the days come out in order |
| SegmentPairs.NullDayKeys | backend/apps/events/views.py:483 | the case with a null day: an error when integer days are present too |
| SegmentPairs.IntDayKeys | backend/apps/events/views.py:483 | the case without a null day: the days sort |
| SegmentPairs.GroupByDay | backend/apps/events/views.py:475-480 | the grouping loop builds, for each day in first-seen order, exactly that day's events in query order |
| SegmentPairs.AppendDayPairs | backend/apps/events/views.py:484-496 | the loop over one day appends exactly that day's start pair and links |
| SegmentPairs.CalculateSegmentPairs | backend/apps/events/views.py:467-498 | `_calculate_segment_pairs` returns the required pairs of the specification `RequiredPairs`, or the error `sorted()` raises |
| SegmentPairs.RequiredPairsExactly | backend/apps/events/views.py:467-498 | a pair is required exactly when it is the start pair or a link pair |
| SegmentPairs.RequiredPairsSound | backend/apps/events/views.py:489-496 | every required pair is the start pair or links two consecutive located events of one day |
| SegmentPairs.StartPairRequired | backend/apps/events/views.py:490-491 | the start pair (none, first event of day 1) is required when that event is located |
| SegmentPairs.LinkRequired | backend/apps/events/views.py:494-496 | every link between two consecutive located events of a day is required |
| SegmentPairs.EmittedDay | backend/apps/events/views.py:483 | every day that has events is among the sorted day keys |
| SegmentPairs.PairsStayWithinDay | backend/apps/events/views.py:494-496 | a required pair never joins events of two different days, and both its events are located |
| SegmentPairs.UnlocatedEventBreaksChain | backend/apps/events/views.py:495 | an unlocated event between two located ones is not bridged: no pair joins the outer two |
| SegmentPairs.UnlocatedFirstEventDropsStart | backend/apps/events/views.py:490 | when the first event of day 1 is unlocated there is no start pair, even if the second event is located |
| SegmentPairs.PairSet | backend/apps/events/views.py:172 | `set(needed_pairs)` holds exactly the listed pairs |
| SegmentPairs.ToDelete | backend/apps/events/views.py:175 | `to_delete` is exactly the existing pairs that are no longer needed |
| SegmentPairs.ToCreate | backend/apps/events/views.py:176 | `to_create` is exactly the needed pairs not yet stored |
| SegmentPairs.Reused | backend/apps/events/views.py:450 | the reused pairs are exactly those both needed and stored |
| SegmentPairs.DiffPartition | backend/apps/events/views.py:172-176 | the existing pairs split into deleted and reused, and the needed pairs into created and reused. Deleting and then creating yields exactly the needed pairs |
| SegmentPairs.SecondDiff | backend/apps/events/views.py:440-445 | after a reconciliation the next diff deletes nothing and only retries the failed pairs. When every pair succeeded, a second run calls nothing and changes nothing |
| ItineraryRules.TargetDay | backend/apps/events/views.py:100 | `data.get('day') or trip.total_days or 1`: the requested day when non-zero, else the trip's day count when non-zero, else 1 |
| ItineraryRules.MaxDayOrder | backend/apps/events/views.py:103 | the largest `day_order` in the day, or none exactly when the day is empty |
| ItineraryRules.MaxGlobalOrder | backend/apps/events/views.py:107 | the largest `global_order`, or none exactly when there are no events |
| ItineraryRules.CreatedDayOrder | backend/apps/events/views.py:103-104 | the new key is the day's largest key plus 10, or 10 when the day is empty |
| ItineraryRules.CreatedGlobalOrder | backend/apps/events/views.py:107-108 | the new `global_order` is the largest plus 1 (not the count plus 1), or 1 when there are none |
| ItineraryRules.CreatedEvent | backend/apps/events/views.py:100-128 | the new event's day, keys and order, and the fields copied from the request |
| ItineraryRules.CreatedEventIsLastOfDay | backend/apps/events/views.py:103-104 | a created event sorts strictly after every event already in its day |
| ItineraryRules.StoredPairs | backend/apps/events/views.py:173 | the keys of `existing_segments_map` are exactly the stored segments' pairs |
| ItineraryRules.FilterSegmentsUnique | backend/apps/events/views.py:179-181 | deleting segments keeps pairs and ids unique |
| ItineraryRules.FilterCostsUnique | backend/apps/events/views.py:179-181 | deleting costs keeps one cost per segment |
| ItineraryRules.KeepNeeded | backend/apps/events/views.py:179-181 | after the delete, exactly the stored segments whose pair is still needed remain |
| ItineraryRules.DeletedIds | backend/apps/events/views.py:180 | `delete_ids` are exactly the ids of the segments no longer needed |
| ItineraryRules.WithoutSegmentCosts | backend/apps/events/views.py:181 | the costs of deleted segments go with them, and no other cost does |
| ItineraryRules.LegFrom | backend/apps/events/views.py:189 | the from-event is looked up only for a truthy from-id, and is found when the trip has it |
| ItineraryRules.LegEnds | backend/apps/events/views.py:189-197 | a leg has ends exactly when its to-event exists and is located, and its from-event, if any, is located. The start is the trip's start location when there is no from-event |
| ItineraryRules.LegSegment | backend/apps/events/views.py:188-210 | a pair yields a segment exactly when it has ends and the provider answers. The segment carries the provider's duration, distance and polyline, mode DRIVING and no departure |
| ItineraryRules.RequiredLegHasEnds | backend/apps/events/views.py:188-197 | every required pair of a well-keyed itinerary has ends, and a segment made for it is stored under that pair |
| ItineraryRules.Succeeded | backend/apps/events/views.py:199-201 | the to-create pairs for which a segment is made |
| ItineraryRules.LegSegmentIdIrrelevant | backend/apps/events/views.py:202-210 | whether a leg succeeds does not depend on the id the new row gets |
| ItineraryRules.CreatedRows | backend/apps/events/views.py:188-212 | the creation loop makes at most one row per pair visited |
| ItineraryRules.CreatedRowsIds | backend/apps/events/views.py:202 | created rows get consecutive ids |
| ItineraryRules.CreatedRowsLegs | backend/apps/events/views.py:188-212 | every created row is the leg of a visited pair |
| ItineraryRules.CreatedRowsPairs | backend/apps/events/views.py:188-212 | the created rows' pairs are exactly the successful pairs; a failure skips only its own pair |
| ItineraryRules.Renumbered | backend/apps/events/views.py:405-407 | the event at rank k gets `global_order` k+1 (global rank), or `day_order` 10(k+1) and `order` 10(k+1) (day rebalance), or `day_order` alone (back-fill); nothing else changes |
| ItineraryRules.WithRanks | backend/apps/events/views.py:405-407 | renumbering keeps each row's id and day in place |
| ItineraryRules.GlobalRankKeepsKeys | backend/apps/events/views.py:403-407 | setting global ranks does not change the (day, day_order) order |
| ItineraryRules.GlobalOrderIsRank | backend/apps/events/views.py:401-407 | after `_recalculate_global_order`, `global_order` is the 1..n rank by (day, day_order) |
| ItineraryRules.GlobalOrderIdempotent | backend/apps/events/views.py:401-407 | recalculating the global order twice is the same as once |
| ItineraryRules.TightGapIsTie | backend/apps/events/views.py:416-424 | on fixed-point keys sorted within one day, a gap below 0.0001 means two equal keys |
| ItineraryRules.RebalanceOtherDays | backend/apps/events/views.py:411 | rebalancing a day leaves every event of other days unchanged |
| ItineraryRules.RebalanceThisDay | backend/apps/events/views.py:429-431 | rebalancing gives the events of the day the keys 10, 20, ... in their original order |
| ItineraryRules.RebalanceDistinct | backend/apps/events/views.py:429-431 | after rebalancing, no two events of the day share a key |
| ItineraryRules.NoTieNoRebalance | backend/apps/events/views.py:413-426 | with no tie in the day, its keys are left unchanged |
| ItineraryRules.RebalanceIdempotent | backend/apps/events/views.py:409-432 | a second rebalance of the same day changes nothing |
| ItineraryRules.WithRanksUnique | backend/apps/events/views.py:405-407 | renumbering keeps ids unique |
| ItineraryRules.SetOrder | backend/apps/events/views.py:368-372 | a reorder item sets `day_order` to its integer order on the fixed-point scale and `order` to the same integer |
| ItineraryRules.LastOrder | backend/apps/events/views.py:366-373 | the order of an event is the last item that names it; none exactly when no item does |
| ItineraryRules.ReorderClosedForm | backend/apps/events/views.py:365-374 | the reorder loop succeeds exactly when every item names an event of the trip, and then each event carries its last item's order |
| ItineraryRules.Patched | backend/apps/events/views.py:227-241 | `update` sets exactly the fields present in the request; ids, keys and coordinates stay |
| ItineraryRules.EmptyPatch | backend/apps/events/views.py:227-243 | an update with no fields changes nothing |
| ItineraryRules.NextInDay | backend/apps/events/views.py:610-614 | the next event is the one of the same day with the least larger `day_order`, or none exactly when no such event exists |
| ItineraryRules.IndexOfPair | backend/apps/events/views.py:620-625 | the position of the stored segment for a pair, or none exactly when none is stored |
| ItineraryRules.CreatedMode | backend/apps/events/views.py:624 | a segment created by `get_or_create` gets the requested mode, or DRIVING when none was given |
| ItineraryRules.FreshSegment | backend/apps/events/views.py:620-625 | a created segment holds only its pair and mode, with zero duration and distance |
| ItineraryRules.EditedSegment | backend/apps/events/views.py:628-637 | the mode changes only to one of the four accepted modes; a given departure replaces the old one; route fields and pair stay |
| ItineraryRules.IndexOfSegmentCost | backend/apps/events/views.py:648 | the position of the segment's cost, or none exactly when it has none |
| ItineraryRules.CostsAfterEdit | backend/apps/events/views.py:644-666 | no cost given leaves costs unchanged; a cost above 0 upserts the segment's cost with that amount and currency; 0 or less deletes it; other costs stay |
| ItineraryRules.UpsertKeepsOneCost | backend/apps/events/views.py:646-661 | the upsert keeps at most one cost per segment |
| Itinerary.CreateLeg | backend/apps/events/views.py:188-212 | one pass of the creation loop: makes exactly `LegSegment`, and calls the provider exactly when the leg has ends |
| Itinerary.IterationOrder | backend/apps/events/views.py:188 | the set `to_create` is walked in some order that lists each pair once |
| Itinerary.CreateSegments | backend/apps/events/views.py:184-212 | the creation loop makes the rows `CreatedRows` describes, and asks the provider exactly for the pairs with ends |
| Itinerary.Consulted | backend/apps/events/views.py:199-200 | the pairs the provider is asked about are the to-create pairs that have ends |
| Itinerary.ReconcileSegments | backend/apps/events/views.py:162-216 | delete, then create, then recompute the totals over all stored segments, as `Reconciled` states. Uniqueness of pairs, ids and segment costs is kept. Only the to-create pairs reach the provider, and nothing changes when the pairs cannot be computed |
| Itinerary.NeedsRebalance | backend/apps/events/views.py:413-424 | a day needs a rebalance exactly when it has at least two events and some adjacent gap below 0.0001 |
| Itinerary.UpdateRouteTables | backend/apps/events/views.py:597-666 | `update_route`: 404 for an unknown event, ValidationError when no later event exists in the day, else upserts the next segment and its cost as `RouteUpdated` states |
| Itinerary.EditLeg | backend/apps/events/views.py:620-666 | `get_or_create` edits the stored segment in place or appends a fresh one, then applies the cost rule |
| Itinerary.TripStore.Reconcile | backend/apps/events/views.py:162-216 | reconciliation on the store changes segments, costs and trip as `Reconciled` states, and leaves the events alone |
| Itinerary.TripStore.Create | backend/apps/events/views.py:82-160 | `create` appends `CreatedEvent` and then reconciles, since recalculation always runs |
| Itinerary.TripStore.Update | backend/apps/events/views.py:218-248 | `update`: 404 for an unknown id; otherwise the event is patched in place and nothing else changes |
| Itinerary.TripStore.Destroy | backend/apps/events/views.py:275-283 | `destroy`: 404 for an unknown id; otherwise the event goes, with the segments that touch it and the costs on it or on them |
| Itinerary.TripStore.Renumber | backend/apps/events/views.py:405-407 | the save loop writes the ranks into the events table and nothing else |
| Itinerary.TripStore.RecalculateGlobalOrder | backend/apps/events/views.py:401-407 | `_recalculate_global_order` sets every `global_order` to the query-order rank |
| Itinerary.TripStore.CheckAndRebalanceDay | backend/apps/events/views.py:409-432 | `_check_and_rebalance_day` leaves the table as `RebalanceDay` gives it |
| Itinerary.TripStore.Reorder | backend/apps/events/views.py:349-399 | `reorder` fails with 404 and changes nothing when an id is unknown. Otherwise it applies the orders, recomputes the global rank, rebalances day 1 (the only affected day, when any item was sent) and reconciles. A failing reconciliation is a server error after the orders were committed |
| Itinerary.TripStore.ApplyOrders | backend/apps/events/views.py:365-374 | the atomic loop commits exactly when every item is known |
| Itinerary.TripStore.UpdateRoute | backend/apps/events/views.py:597-666 | `update_route` on the store, with events and trip unchanged |
| Itinerary.TouchingIds | backend/apps/events/views.py:279 | the ids of the segments that start or end at the deleted event |
| Itinerary.WithoutEvent | backend/apps/events/views.py:279 | deleting an event removes exactly the segments that touch it |
| Itinerary.WithoutEventUnique | backend/apps/events/views.py:279 | that delete keeps pairs and ids unique |
| Itinerary.CostsWithoutEvent | backend/apps/events/views.py:279 | deleting an event removes exactly its costs and those of the removed segments |
| Itinerary.CostsWithoutEventUnique | backend/apps/events/views.py:279 | that delete keeps one cost per segment |
| Itinerary.KeepNeededUnique | backend/apps/events/views.py:179-181 | the reconciliation delete keeps pairs and ids unique |
| Itinerary.ReconcileKeepsTables | backend/apps/events/views.py:179-212 | kept plus created segments have unique pairs and ids, and costs stay one per segment |
| Itinerary.ReorderFailsOnward | backend/apps/events/views.py:365-367 | once an item is unknown, the whole reorder fails: the atomic block rolls back whatever came before |
| RouteOptimizer.Reverse | backend/apps/routes/services.py:180 | `[::-1]`: the same length, element j taken from the mirrored position |
| RouteOptimizer.ReversePermutes | backend/apps/routes/services.py:180 | reversing keeps the multiset of places |
| RouteOptimizer.TwoOptSwap | backend/apps/routes/services.py:178-181 | `two_opt_swap(route, i, k)` reverses positions i..k inclusive and keeps every other position |
| RouteOptimizer.TwoOptSwapPermutes | backend/apps/routes/services.py:178-181 | a 2-opt swap keeps the length and the multiset of places |
| RouteOptimizer.TwoOptSwapInvolution | backend/apps/routes/services.py:178-181 | the same swap done twice gives the route back |
| RouteOptimizer.RouteLengthCons | backend/apps/routes/services.py:183-195 | the route length is the leg from the start to the first place plus the length of the rest from there |
| RouteOptimizer.RouteDistance | backend/apps/routes/services.py:183-195 | `calculate_route_distance`: the accumulator loop computes the specification `RouteLength`, which is 0 for no places |
| RouteOptimizer.ArgMin | backend/apps/routes/services.py:168-171 | `min(unvisited, key=...)` picks a place at least distance from the current position, the first such one on ties |
| RouteOptimizer.RemoveFirst | backend/apps/routes/services.py:173 | `list.remove` drops one occurrence, the first |
| RouteOptimizer.NearestNeighborPermutes | backend/apps/routes/services.py:157-176 | the nearest-neighbour route is a permutation of the places |
| RouteOptimizer.NearestNeighborGreedy | backend/apps/routes/services.py:166-174 | each place appended is at least distance from the current position among the places not yet visited |
| RouteOptimizer.NearestNeighbor | backend/apps/routes/services.py:157-176 | `nearest_neighbor`: the while loop computes the specification `NearestNeighborRoute` (empty for no places) |
| RouteOptimizer.Optimize | backend/apps/routes/services.py:197-226 | `optimize` returns one place or none unchanged. Otherwise the result is a permutation no longer than the nearest-neighbour route. It makes at most `iterations` passes and stops early only at a 2-opt local optimum |
| RouteOptimizer.OptimizePass | backend/apps/routes/services.py:212-221 | one pass: with no accepted swap the route is a 2-opt local optimum; otherwise its permutation is strictly shorter |
| FrontendTypes.Round | frontend/src/utils/optimization.ts:148 | `Math.round` gives the integer within half of x, halves rounded up |
| FrontendTypes.Ceil | frontend/src/utils/optimization.ts:138 | `Math.ceil` gives the least integer not below x |
| FrontendOptimization.RemoveAt | frontend/src/utils/optimization.ts:36 | `splice(k, 1)` removes position k and shifts the rest down |
| FrontendOptimization.RemoveAtIsRemoveFirst | frontend/src/utils/optimization.ts:36 | removing at the first position holding a value is removing the first occurrence |
| FrontendOptimization.FindNearest | frontend/src/utils/optimization.ts:20-34 | the scan with a strict `<` finds the nearest remaining place, the first index winning ties |
| FrontendOptimization.VisitNearest | frontend/src/utils/optimization.ts:19-39 | the while loop visits the remaining places in nearest-neighbour order |
| FrontendOptimization.NearestNeighborOptimization | frontend/src/utils/optimization.ts:8-42 | lists of at most one place come back unchanged. Otherwise the result is a permutation that keeps the first place first and greedily orders the rest |
| FrontendOptimization.TwoOptReverse | frontend/src/utils/optimization.ts:82-87 | `twoOptReverse(route, i, j)` reverses positions i+1..j and keeps the rest |
| FrontendOptimization.PathLengthCons | frontend/src/utils/optimization.ts:102-120 | the path length is the first leg plus the length of the rest, with no start leg |
| FrontendOptimization.CalculateRouteDistance | frontend/src/utils/optimization.ts:102-120 | the accumulator loop sums the legs between consecutive places; 0 for none |
| FrontendOptimization.TwoOptPass | frontend/src/utils/optimization.ts:62-73 | one pass over j >= i+2 keeps the first place and the multiset. When a reversal is accepted the route gets strictly shorter; otherwise it is a reversal local optimum |
| FrontendOptimization.TwoOptSwap | frontend/src/utils/optimization.ts:47-77 | up to two places come back unchanged. Otherwise the result is a permutation that keeps the first place and is never longer, after at most `iterations` passes; stopping early means a local optimum |
| FrontendOptimization.WithOrders | frontend/src/utils/optimization.ts:141-144 | the optimised places carry orders 1, 2, ... in their new sequence, and nothing else changes |
| FrontendOptimization.ImprovementPercent | frontend/src/utils/optimization.ts:146-149 | 0 when the original distance is 0. Between 0 and 100 when the route did not get longer; not positive when it got longer |
| FrontendOptimization.OptimizeRoute | frontend/src/utils/optimization.ts:125-156 | `optimizeRoute` returns a permutation that keeps the first place and is no longer than the nearest-neighbour route. Orders are renumbered, the duration is `ceil(12 x distance)`, and the improvement is measured against the input order |
| GuestTripStore.ShortId | frontend/src/stores/tripStore.ts:27 | `uuid.slice(0, 8)` is a prefix of at most eight characters |
| GuestTripStore.NewGuestTrip | frontend/src/stores/tripStore.ts:25-41 | a new guest trip has no places, a zero route summary and both timestamps set to now |
| GuestTripStore.MaxOrder | frontend/src/stores/tripStore.ts:61 | `Math.max` over the orders is one of them and bounds all of them |
| GuestTripStore.NextOrder | frontend/src/stores/tripStore.ts:59-67 | the new order is the largest plus 1, or 1 for an empty trip, so above every existing order |
| GuestTripStore.WithPlace | frontend/src/stores/tripStore.ts:43-77 | `addPlace` does nothing without a trip, for a duplicate `placeId` or at 10 places. Otherwise it appends exactly the new place with the next order and touches `updatedAt` |
| GuestTripStore.WithPlaceKeepsValid | frontend/src/stores/tripStore.ts:48-73 | adding keeps the places at most 10 with distinct place ids and increasing orders |
| GuestTripStore.WithoutId | frontend/src/stores/tripStore.ts:86 | `filter(p => p.id !== id)` keeps exactly the other places |
| GuestTripStore.WithoutIdAppend | frontend/src/stores/tripStore.ts:86 | the filter works piece by piece, so the order of the rest is kept |
| GuestTripStore.WithoutIdIdempotent | frontend/src/stores/tripStore.ts:86 | removing the same id twice is removing it once |
| GuestTripStore.WithoutPlace | frontend/src/stores/tripStore.ts:79-90 | `removePlace` does nothing without a trip; otherwise it removes exactly the places with that id |
| GuestTripStore.Partialize | frontend/src/stores/tripStore.ts:151-158 | what is persisted is the trip without its directions result |
| GuestTripStore.PartializeIdempotent | frontend/src/stores/tripStore.ts:151-158 | persisting twice is persisting once |
| GuestTripStore.TripStoreState.constructor | frontend/src/stores/tripStore.ts:23 | the store starts with no trip |
| GuestTripStore.TripStoreState.CreateTrip | frontend/src/stores/tripStore.ts:25-41 | `createTrip` replaces the current trip with a new guest trip |
| GuestTripStore.TripStoreState.AddPlace | frontend/src/stores/tripStore.ts:43-77 | `addPlace` leaves the trip as `WithPlace` gives it |
| GuestTripStore.TripStoreState.RemovePlace | frontend/src/stores/tripStore.ts:79-90 | `removePlace` leaves the trip as `WithoutPlace` gives it |
| GuestTripStore.TripStoreState.UpdatePlaceOrder | frontend/src/stores/tripStore.ts:92-103 | a no-op without a trip; otherwise the places are replaced wholesale |
| GuestTripStore.TripStoreState.UpdateRouteSummary | frontend/src/stores/tripStore.ts:105-116 | a no-op without a trip; otherwise the summary is replaced |
| GuestTripStore.TripStoreState.UpdateDirectionsResult | frontend/src/stores/tripStore.ts:118-129 | a no-op without a trip; otherwise the directions result is replaced |
| GuestTripStore.TripStoreState.OptimizePlaces | frontend/src/stores/tripStore.ts:131-143 | a no-op without a trip; otherwise places and summary are replaced together |
| GuestTripStore.TripStoreState.ClearTrip | frontend/src/stores/tripStore.ts:145-147 | `clearTrip` leaves no trip |
| GuestTripStore.Migrate | frontend/src/stores/tripStore.ts:160-171 | from version 0, `startLocation` moves to `cityLocation` only when `cityLocation` is absent; anything else passes unchanged |
| GuestTripStore.MigrateIdempotent | frontend/src/stores/tripStore.ts:160-171 | migrating twice is migrating once, and a migrated version-0 trip with either location has a city location |
| MapsService.AsciiLower | frontend/src/services/googleMapsService.ts:34 | `toLowerCase` on ASCII letters |
| MapsService.DetectLanguage | frontend/src/services/googleMapsService.ts:10-46 | the result is one of the fourteen codes, "en" for empty text, "ko" whenever there is Hangul. A European language needs an accented letter, and "en" means no script, no accent or no leading article |
| MapsService.AsciiIsEnglish | frontend/src/services/googleMapsService.ts:33-45 | plain ASCII text is always "en" |
| MapsService.ScriptBeforeArticles | frontend/src/services/googleMapsService.ts:24-28 | Cyrillic text without an earlier script is "ru", whatever its words |
| MapsService.SharedArticleGoesFrench | frontend/src/services/googleMapsService.ts:35-37 | accented text starting with the article "la " is French, because French is tried before Spanish and Italian |
| MapsService.OrElse | frontend/src/services/googleMapsService.ts:124-125 | `x \|\| d` on a string |
| MapsService.ToCity | frontend/src/services/googleMapsService.ts:123-126 | a hit becomes a city with the formatted address, else the display name, else "" |
| MapsService.SearchCityAutocomplete | frontend/src/services/googleMapsService.ts:92-128 | blank input gives [] before anything else. Without the places library the call throws. Otherwise each hit of the search in the detected language becomes one city |
| MapsService.CacheKey | frontend/src/services/googleMapsService.ts:232 | the key is the two place ids joined by '-' |
| MapsService.CacheKeyInjective | frontend/src/services/googleMapsService.ts:232 | for ids without '-' the key names one pair |
| MapsService.CacheKeyCollision | frontend/src/services/googleMapsService.ts:232 | ids containing '-' can share a key |
| MapsService.CeilMinutes | frontend/src/services/googleMapsService.ts:259 | seconds are rounded up to whole minutes |
| MapsService.EntryOf | frontend/src/services/googleMapsService.ts:256-261 | the cached entry carries the ids, the duration in minutes rounded up and the distance in km |
| MapsService.RouteMemo.constructor | frontend/src/services/googleMapsService.ts:7 | the memo starts empty |
| MapsService.RouteMemo.CalculateRoute | frontend/src/services/googleMapsService.ts:224-275 | `calculateRoute` serves a cached entry only when both ids are given. Otherwise it asks the directions service, and a success with both ids is stored under `${from}-${to}`. Entries are never dropped |
| MapsService.RouteMemo.CalculateTotalRoute | frontend/src/services/googleMapsService.ts:277-303 | 0 for no places. It succeeds when the directions service answers every leg between consecutive places, and a failure means some leg was refused. On success it gives the sums over those legs, with no start leg, each leg served as `calculateRoute` serves it |
| MapsService.RouteMemo.Clear | frontend/src/services/googleMapsService.ts:353-355 | an empty memo |
| MapsService.LegServedGrows | frontend/src/services/googleMapsService.ts:231-237 | a leg served from the memo is still served after more entries are added |
| MapsService.LegsSnoc | frontend/src/services/googleMapsService.ts:295-296 | the totals grow by each leg's duration and distance |
| RouteViews.GetTripAsWritten | backend/apps/routes/views.py:77-88 | as written: 404 for an unknown trip and a server error for every trip that exists, since `is_expired` is not a method of Trip |
| RouteViews.NoTripPassesAsWritten | backend/apps/places/views.py:62-73 | no trip gets past the lookup as written, in the place views as in the route views |
| RouteViews.GetTrip | backend/apps/routes/views.py:77-88 | as intended: 404 for an unknown trip, TRIP_EXPIRED once the clock is past the trip's expiry, else the trip, never a server error |
| RouteViews.TripLiveUntilExpiry | backend/apps/routes/views.py:82-87 | a trip is served exactly up to its expiry instant; there the intended lookup and the written one differ, and they agree on a missing trip |
| RouteViews.RequestedLegs | backend/apps/routes/views.py:139-161 | one leg request per place: from the start location to the first place, then between consecutive places by place id |
| RouteViews.ServedRoutes | backend/apps/routes/views.py:141-172 | at most one route per requested leg; failed legs are left out |
| RouteViews.ServedRoutesAll | backend/apps/routes/views.py:141-172 | when every leg succeeds, each leg gives its route, in order |
| RouteViews.ServedRoutesSound | backend/apps/routes/views.py:141-172 | every returned route is the provider's answer for one requested leg |
| RouteViews.RoutesSnoc | backend/apps/routes/views.py:150-151 | the totals grow by each returned route's duration and distance |
| RouteViews.Calculate | backend/apps/routes/views.py:124-188 | `calculate` returns exactly the served routes, and saves totals equal to the sums over exactly those routes |
| RouteViews.Trunc | backend/apps/routes/views.py:273 | Python's `int()` on a float truncates toward zero |
| RouteViews.ImprovementPercent | backend/apps/routes/views.py:272-275 | the reported percentage is never negative. It is 0 when the original is 0 or the route got no shorter, and at most 100 |
| RouteViews.WithOrders | backend/apps/routes/views.py:277-287 | the optimised places carry orders 1.0, 2.0, ... in their optimised sequence |
| RouteViews.Optimize | backend/apps/routes/views.py:245-311 | more than 10 places is TOO_MANY_PLACES, before any optimisation. Otherwise the places are a permutation no longer than the nearest-neighbour route, numbered in order. Durations are `int(3 x distance)` and both improvements never go negative |
| RouteViews.OptimizeTwoPasses | backend/apps/routes/views.py:268 | the optimizer's route with two passes: a permutation of the places, unchanged below two, no longer than nearest-neighbour |
| RouteViews.Respond | backend/apps/routes/views.py:265-308 | the response numbers the route 1, 2, ..., reports both distances, durations `int(3 x distance)` and the two improvement percentages |
| RouteViews.IndexOfEvent | backend/apps/routes/views.py:348 | the position of the event with an id, or none when the trip has none |
| RouteViews.LastOrderFor | backend/apps/routes/views.py:347-350 | an event's order is the last item naming it |
| RouteViews.OrdersWritten | backend/apps/routes/views.py:347-350 | each named event gets its last item's order as an integer; the others keep theirs |
| RouteViews.FirstMissing | backend/apps/routes/views.py:347-348 | the first item with an unknown id, or none when all are known |
| RouteViews.OrdersWrittenKeepsIds | backend/apps/routes/views.py:347-350 | writing orders keeps ids and their positions |
| RouteViews.TripEvents.ApplyOptimization | backend/apps/routes/views.py:338-360 | `apply_optimization` is not transactional: on an unknown id it answers 404 with the orders before it already written; otherwise all orders are written |
| PlaceViews.Search | backend/apps/places/views.py:32-48 | `search` fails with MISSING_QUERY exactly when the query is missing or empty; otherwise it returns the provider's results |
| PlaceViews.MaxOrder | backend/apps/places/views.py:118 | `Max('order')` is none for no places, else the largest order |
| PlaceViews.NextOrder | backend/apps/places/views.py:118-119 | as intended: the new order is the largest plus 1.0, or 1.0 for an empty trip, so above every existing one |
| PlaceViews.NextOrderAsWritten | backend/apps/places/views.py:118-119 | as written: a server error exactly when the trip has a nonzero largest order (Decimal plus float), else 1.0 |
| PlaceViews.NextOrderAsWrittenAgrees | backend/apps/places/views.py:118-119 | where the written next order answers, it is the intended one |
| PlaceViews.SecondPlaceFailsAsWritten | backend/apps/places/views.py:118-119 | after a first place of order 1, the written next order fails where the intended one is 2 |
| PlaceViews.InsertByOrderSorted | backend/apps/places/views.py:161 | inserting keeps the list sorted by order and adds exactly that place |
| PlaceViews.SortByOrderSorted | backend/apps/places/views.py:161 | `order_by('order')` gives a sorted permutation |
| PlaceViews.IndexOfPlace | backend/apps/places/views.py:137 | the first position holding a place id, or none exactly when no place has it |
| PlaceViews.LastOrderFor | backend/apps/places/views.py:155-158 | a place's order is the last item naming it |
| PlaceViews.OrdersWritten | backend/apps/places/views.py:155-158 | exactly the listed places get their last listed order; unlisted places keep theirs |
| PlaceViews.FirstMissing | backend/apps/places/views.py:155-156 | the first item with an unknown id, or none when all are known |
| PlaceViews.OrdersWrittenKeepsRows | backend/apps/places/views.py:155-158 | writing orders keeps ids, place ids and their positions, and their uniqueness |
| PlaceViews.TripPlaces.Create | backend/apps/places/views.py:82-132 | at 10 or more places PLACE_LIMIT_EXCEEDED, before payload validation. Then an invalid payload, then DUPLICATE_PLACE. It succeeds exactly when none of these applies, and then exactly one place is appended with the next order. A refusal changes nothing, and the trip never grows past 10 |
| PlaceViews.TripPlaces.Destroy | backend/apps/places/views.py:134-139 | 404 for an unknown id; otherwise exactly that place is removed |
| PlaceViews.TripPlaces.Reorder | backend/apps/places/views.py:146-171 | `reorder` writes the listed orders one by one. An unknown id answers 404 with the earlier writes kept. Otherwise it returns the places sorted by order and the trip's summary |
| PlaceViews.SaveOrders | backend/apps/places/views.py:155-158 | the save loop stops at the first unknown id, having written the items before it |
| PlaceViews.WrittenValid | backend/apps/places/views.py:155-158 | writing orders keeps the table well formed |
| PlaceViews.RemoveKeepsValid | backend/apps/places/views.py:138 | deleting a row keeps the table well formed and the order of the rest |
| RouteCache.ExpiryOnSave | backend/apps/routes/models.py:29-33 | `save` keeps a set `expires_at` and sets an unset one to now plus seven days |
| RouteCache.LiveMatches | backend/apps/routes/models.py:43-47 | the filter keeps exactly the rows for the pair that expire strictly after now |
| RouteCache.GetRoute | backend/apps/routes/models.py:39-50 | `get_route` gives none exactly when no row for the pair expires after now; a row it gives is live and for the pair. More than one live row raises |
| RouteCache.GetRouteNeverRaises | backend/apps/routes/models.py:24 | with one row per pair, `get_route` never raises |
| RouteCache.ExpiryBoundary | backend/apps/routes/models.py:35-46 | at now equal to `expires_at` the row is not expired, yet `get_route` already excludes it |
| RouteCache.LiveUntilExpiry | backend/apps/routes/models.py:35-50 | a row is served while now is before its expiry, and not once it is expired |
| RouteCache.IndexOfRow | backend/apps/routes/models.py:9 | the position of the row with a primary key, or none exactly when there is none |
| RouteCache.CacheTable.Save | backend/apps/routes/models.py:24-33 | `save` updates the row with its key or inserts a new one, setting the expiry as `ExpiryOnSave` says. A pair already held by another row is an integrity error and changes nothing |
| InitEventOrders.ListingLeTotal | backend/apps/events/management/commands/init_event_orders.py:25 | the (day, order) listing compares any two events |
| InitEventOrders.ListingLeTransitive | backend/apps/events/management/commands/init_event_orders.py:25 | the (day, order) listing is transitive |
| InitEventOrders.SortByListingProps | backend/apps/events/management/commands/init_event_orders.py:25 | `order_by('day', 'order')` gives a sorted permutation |
| InitEventOrders.SortByListingUnique | backend/apps/events/management/commands/init_event_orders.py:25 | the listing keeps ids unique |
| InitEventOrders.SortByListingSameKeys | backend/apps/events/management/commands/init_event_orders.py:25-29 | the listing depends only on id, day and order, so writing `global_order` does not change it |
| InitEventOrders.RankIn | backend/apps/events/management/commands/init_event_orders.py:27-28 | an event's 1-based rank, positive exactly when it is listed |
| InitEventOrders.BackfilledRanges | backend/apps/events/management/commands/init_event_orders.py:25-39 | every `global_order` written is in 1..n, and every `day_order` written is one of 10, 20, ..., 10m for the m events of that day |
| InitEventOrders.BackfillIdempotent | backend/apps/events/management/commands/init_event_orders.py:21-42 | running the command twice gives what running it once gives |
| InitEventOrders.DaysOf | backend/apps/events/management/commands/init_event_orders.py:32 | `set(e.day for e in all_events if e.day)`: each non-null, non-zero day once |
| InitEventOrders.CountInAllDays | backend/apps/events/management/commands/init_event_orders.py:41-42 | the counts over all the days add up to the number of events with a truthy day |
| InitEventOrders.BackfillTrip | backend/apps/events/management/commands/init_event_orders.py:24-42 | for one trip, `global_order` becomes the (day, order) rank, and each non-zero day's `day_order` becomes 10, 20, ... by order. Events with a null day keep their `day_order`. The count is the number of events with a truthy day |
| InitEventOrders.AllDaysVisited | backend/apps/events/management/commands/init_event_orders.py:32-39 | the day loop visits every day with events, so the trip ends as `Backfilled` describes |
| InitEventOrders.Handle | backend/apps/events/management/commands/init_event_orders.py:12-44 | `handle` back-fills every trip, and its total is the sum of the per-trip counts |
| TripPermissions.TripOf | backend/apps/trips/permissions.py:21-26 | the trip of the object: itself, an event's trip, or the `trip` attribute when there is one |
| TripPermissions.FindMember | backend/apps/trips/permissions.py:32-38 | the membership row for (trip, user), or none exactly when there is none |
| TripPermissions.FindMemberUnique | backend/apps/trips/models.py:75 | with unique memberships, the lookup finds the one row |
| TripPermissions.RoleOf | backend/apps/trips/permissions.py:32-38 | the user's role in the trip, exactly when they are a member |
| TripPermissions.HasPermission | backend/apps/trips/permissions.py:11-13 | the view-level check passes exactly for an authenticated user |
| TripPermissions.MemberAllows | backend/apps/trips/permissions.py:15-52 | no trip or no membership denies. Safe methods are allowed to every member, DELETE only to the owner, other writes to editor and owner |
| TripPermissions.OwnerAllows | backend/apps/trips/permissions.py:62-81 | `IsTripOwner` allows exactly an owner of the object's trip |
| TripPermissions.ViewerReadsOnly | backend/apps/trips/permissions.py:40-52 | a viewer is allowed exactly the safe methods |
| TripPermissions.OwnerMayDoAnything | backend/apps/trips/permissions.py:40-52 | whoever `IsTripOwner` allows, `TripMemberPermission` allows for every method |
| TripPermissions.MemberAllowsMonotone | backend/apps/trips/permissions.py:40-52 | a higher role is allowed everything a lower one is |
| TripPermissions.RoleRank | backend/apps/trips/models.py:62-66 | the roles ranked viewer < editor < owner |
| TripViews.Verb | backend/apps/trips/views.py:146-214 | the HTTP method of each action: list, retrieve and members are safe; destroy and remove-member are DELETE |
| TripViews.PermissionOf | backend/apps/trips/views.py:48-56 | the permission class of each action: the owner check for destroy and the three member-management actions, the member check for update and members, plain authentication otherwise |
| TripViews.ObjectAllowed | backend/apps/trips/views.py:48-56 | the object check an action runs. An allowed action needs plain authentication or a membership, and an owner-only one needs the owner role |
| TripViews.VisibleTrips | backend/apps/trips/views.py:36-46 | `get_queryset`: exactly the trips the user is a member of, and none for an anonymous user |
| TripViews.IndexOfTrip | backend/apps/trips/views.py:36-46 | the position of the trip with an id, or none exactly when there is none |
| TripViews.Authorize | backend/apps/trips/views.py:31-56 | anonymous is not authenticated. A trip that does not exist or is not the user's is not found. Otherwise the action's object check decides between the trip and permission denied |
| TripViews.AuthenticatedNeedsNoRole | backend/apps/trips/views.py:46-54 | list, retrieve and create need a signed-in user and no role |
| TripViews.ViewerAccess | backend/apps/trips/views.py:48-56 | a viewer may list, retrieve, create and see members, and nothing else |
| TripViews.EditorAccess | backend/apps/trips/views.py:48-56 | an editor may do everything but the owner-only actions |
| TripViews.OwnerAccess | backend/apps/trips/views.py:48-56 | an owner may do every action on their trip |
| TripViews.CreateValidated | backend/apps/trips/serializers.py:13-17 | the create serializer keeps title, city and start location and declares no start date or day count |
| TripViews.CreatedTrip | backend/apps/trips/views.py:77-84 | the new trip takes the validated fields, `total_days` defaults to 1, and its route summary is zero |
| TripViews.CreatedTripDefaults | backend/apps/trips/views.py:82-83 | through the serializer a trip is always created with one day and no start date |
| TripViews.UpdateValidated | backend/apps/trips/serializers.py:20-24 | the update serializer keeps title, city and start location when given and declares no start date or day count |
| TripViews.Patched | backend/apps/trips/views.py:120-133 | `partial_update` changes exactly the fields present, and the rest of the trip stays |
| TripViews.PatchedLaws | backend/apps/trips/views.py:120-133 | an empty patch changes nothing, and patching twice is patching once |
| TripViews.PatchKeepsSchedule | backend/apps/trips/views.py:128-131 | through the serializer an update never changes the start date or the day count |
| TripViews.MembersOf | backend/apps/trips/views.py:150 | exactly the memberships of the trip |
| TripViews.MembersNotOf | backend/apps/trips/models.py:69 | deleting a trip deletes exactly its memberships |
| TripViews.FreshTripHasNoMembers | backend/apps/trips/models.py:9 | a new trip id has no memberships yet |
| TripViews.MembersOfSnoc | backend/apps/trips/views.py:150 | adding a membership adds it to the member list of its trip only |
| TripViews.CreateKeepsValid | backend/apps/trips/views.py:67-91 | creating a trip with its owner membership keeps ids unique, memberships unique per (trip, user), and every membership on an existing trip |
| TripViews.TripDb.constructor | backend/apps/trips/models.py:6-82 | empty tables |
| TripViews.TripDb.ListTrips | backend/apps/trips/views.py:36-46 | the list holds exactly the user's trips, and anonymous is not authenticated |
| TripViews.TripDb.RetrieveTrip | backend/apps/trips/views.py:96-110 | the trip is returned exactly to an authenticated member |
| TripViews.TripDb.ListMembers | backend/apps/trips/views.py:146-152 | a member gets exactly the trip's memberships |
| TripViews.TripDb.CreateTrip | backend/apps/trips/views.py:67-94 | creating succeeds exactly for a signed-in user with a valid request, and appends the trip and exactly one owner membership for the creator, atomically. Anonymous and invalid requests change nothing |
| TripViews.TripDb.PartialUpdate | backend/apps/trips/views.py:112-136 | a permitted update replaces the trip by `Patched` and changes nothing else; a refused one changes nothing |
| TripViews.TripDb.DestroyTrip | backend/apps/trips/views.py:138-142 | only the owner deletes, and deleting removes the trip and its memberships |
| TripViews.TripDb.InviteMember | backend/apps/trips/views.py:158-194 | an unknown email is not found and an existing member is refused. It succeeds exactly when the owner invites a known non-member, and then exactly one membership is added, its role defaulting to viewer |
| TripViews.TripDb.UpdateMemberRole | backend/apps/trips/views.py:200-212 | a missing role is an invalid payload and a missing membership is not found. It succeeds exactly when the owner gives a role for an existing membership, and then only that membership's role changes |
| TripViews.TripDb.RemoveMember | backend/apps/trips/views.py:214-228 | a missing membership is not found and the owner's membership is never removed. It succeeds exactly when the owner removes an existing non-owner membership, and then exactly that membership goes |
| TripViews.PatchKeepsValid | backend/apps/trips/views.py:133 | saving a patched trip under its own id keeps the tables consistent |
| TripViews.DestroyKeepsValid | backend/apps/trips/views.py:141 | deleting a trip with its memberships keeps the tables consistent |
| TripViews.RemoveTripKeepsIds | backend/apps/trips/views.py:141 | after a deletion the remaining trip ids are still unique and below the next id |
| TripViews.SurvivorKeepsTrip | backend/apps/trips/models.py:69 | a membership surviving the cascade still points at an existing trip |
| TripViews.SubsequenceMembers | backend/apps/trips/models.py:75 | the memberships left by the cascade are still unique |
| TripViews.InviteKeepsValid | backend/apps/trips/views.py:180-191 | adding a membership for a non-member keeps the tables consistent |
| TripViews.RoleChangeKeepsValid | backend/apps/trips/views.py:207-209 | changing one role keeps the tables consistent |
| TripViews.RemoveKeepsValid | backend/apps/trips/views.py:227 | deleting one membership keeps the tables consistent |
| TripViews.RemoveKeepsOwners | backend/apps/trips/views.py:221-227 | removing a non-owner keeps every owner membership |
| TripViews.InviteTwiceRefused | backend/apps/trips/views.py:180-184 | once invited, a user is a member, so a second invitation is refused |
| SharedViews.SharedMatches | backend/apps/trips/shared_views.py:34 | exactly the trips with that share id that are shared |
| SharedViews.GetShared | backend/apps/trips/shared_views.py:30-37 | a trip found is shared under that id; not found exactly when there is none; one match is returned and several are MultipleFound |
| SharedViews.SharedMatchesUnique | backend/apps/trips/shared_views.py:34 | with unique share ids, a shared row is the only match for its id |
| SharedViews.GetSharedFindsRow | backend/apps/trips/shared_views.py:30-37 | with unique share ids, a shared trip is found by its share id and never MultipleFound |
| SharedViews.UnsharedIsNotFound | backend/apps/trips/shared_views.py:34-37 | once its trip stops being shared, a unique share id no longer finds anything |
| SharedViews.TrimLeft | backend/apps/trips/shared_views.py:104 | `int()` drops leading white space, Unicode spaces and separators included |
| SharedViews.TrimRight | backend/apps/trips/shared_views.py:104 | `int()` drops trailing white space, Unicode spaces and separators included |
| SharedViews.DropUnderscores | backend/apps/trips/shared_views.py:104 | the digits left once the single underscores between digit groups are dropped |
| SharedViews.GroupsValue | backend/apps/trips/shared_views.py:104 | `int()` reads a body of digit groups joined by single underscores, and only that |
| SharedViews.Signed | backend/apps/trips/shared_views.py:104 | the optional sign |
| SharedViews.GroupsValueOfDigits | backend/apps/trips/shared_views.py:104 | plain digits read as their decimal value |
| SharedViews.TrimNothing | backend/apps/trips/shared_views.py:104 | trimming a string without surrounding space leaves it |
| SharedViews.PyIntOfUnsigned | backend/apps/trips/shared_views.py:104 | an unsigned numeral reads as its digit groups |
| SharedViews.PyIntOfDigits | backend/apps/trips/shared_views.py:104 | a plain numeral reads as its value |
| SharedViews.PyIntOfMinus | backend/apps/trips/shared_views.py:104 | a minus sign negates the digit groups |
| SharedViews.MinusOfValue | backend/apps/trips/shared_views.py:104 | a minus sign before digit groups of a value reads as its negation |
| SharedViews.PyIntSkipsSpace | backend/apps/trips/shared_views.py:104 | a numeral after any white-space character, a no-break space say, reads as its value |
| SharedViews.PyIntOfNegatedDigits | backend/apps/trips/shared_views.py:104 | a minus sign and a plain numeral read as the negated value |
| SharedViews.PyIntReadsDecimal | backend/apps/trips/shared_views.py:104 | every integer written in decimal reads back as itself |
| SharedViews.Days | backend/apps/trips/shared_views.py:90-124 | the lookup comes first. A missing or empty day is refused, as is one `int()` cannot read or one outside 1..total days. Otherwise the trip and the day are returned |
| SharedViews.DaysAcceptsEachDay | backend/apps/trips/shared_views.py:96-115 | a day written in decimal is accepted exactly when it is within 1..total days |
| SharedViews.Joined | backend/apps/trips/shared_views.py:166-181 | a member stays as they were; anyone else is added as editor, and then is a member |
| SharedViews.JoinReplyOf | backend/apps/trips/shared_views.py:168-188 | the reply: the trip id, whether the user is new, their role (editor when new), and the matching message |
| SharedViews.RoleOfSnocOther | backend/apps/trips/shared_views.py:167 | an existing membership's role does not change when a row is appended |
| SharedViews.FindMemberPrefix | backend/apps/trips/shared_views.py:167 | `.first()` keeps finding the same membership when a row is appended |
| SharedViews.JoinIdempotent | backend/apps/trips/shared_views.py:166-188 | joining twice changes the tables once, and the second reply says not new with the same role |
| SharedViews.JoinKeepsRows | backend/apps/trips/shared_views.py:177-181 | joining adds at most one row and keeps all existing ones |
| SharedViews.SharedDb.constructor | backend/apps/trips/models.py:59-75 | the share rows given, no memberships |
| SharedViews.SharedDb.Join | backend/apps/trips/shared_views.py:158-188 | login is required and an unshared id is not found, both changing nothing. It succeeds exactly for a signed-in user and a found trip, and then the memberships become `Joined` and the reply is `JoinReplyOf` |
| SharedViews.JoinKeepsValid | backend/apps/trips/models.py:75 | a join keeps memberships unique per (trip, user) |
| ErrorEnvelope.ErrorCode | backend/config/exceptions.py:24-35 | a listed exception class gets its code and any other class is `UNKNOWN_ERROR` |
| ErrorEnvelope.LookupCode | backend/config/exceptions.py:26-35 | `dict.get` with a default over a table of distinct names |
| ErrorEnvelope.CodeLengths | backend/config/exceptions.py:26-32 | the five codes are distinct |
| ErrorEnvelope.ErrorCodeInjective | backend/config/exceptions.py:26-35 | two different exception classes with a listed code never share it |
| ErrorEnvelope.UnlistedErrorsAreUnknown | backend/config/exceptions.py:26-35 | the `NotAuthenticated` and `MethodNotAllowed` classes are not in the table, so they come out as `UNKNOWN_ERROR`; the framework's `NotFound` class maps to `RESOURCE_NOT_FOUND` |
| ErrorEnvelope.Http404UnknownAsWritten | backend/config/exceptions.py:24-35 | as written, Django's `Http404`, raised by `get_object_or_404`, is looked up by its own class name and comes out as `UNKNOWN_ERROR`, not the intended `RESOURCE_NOT_FOUND` |
| ErrorEnvelope.HandledErrorCode | backend/config/exceptions.py:9-14 | the intended code: `Http404`, which the framework's handler answers as its `NotFound`, gives `RESOURCE_NOT_FOUND`, and every other class gets its table code |
| ErrorEnvelope.QuoteRepr | backend/config/exceptions.py:43-48 | a string inside a list or a dict is shown quoted |
| ErrorEnvelope.Str | backend/config/exceptions.py:43-48 | `str`: a string or an ErrorDetail is its text, a list is bracketed and a dict is braced |
| ErrorEnvelope.DetailRepr | backend/config/exceptions.py:43-48 | an ErrorDetail inside a list or a dict shows as `ErrorDetail(string=..., code=...)` |
| ErrorEnvelope.Lookup | backend/config/exceptions.py:42-43 | the value of a key in a dict, none exactly when the key is absent |
| ErrorEnvelope.ErrorMessage | backend/config/exceptions.py:38-51 | a string or an ErrorDetail is the message (its text), and a detail key is shown. Otherwise it is the first entry: its first item for a non-empty list, else the value itself. Anything else, including an empty dict, gets the default message |
| ErrorEnvelope.MessageFromBody | backend/config/exceptions.py:38-51 | the message is always the default or drawn from the body |
| ErrorEnvelope.Envelope | backend/config/exceptions.py:5-21 | an unhandled exception stays unhandled. Otherwise the envelope carries the intended code and the message, and the details are the body exactly when it is a dict, else an empty dict |
| ErrorEnvelope.EnvelopeKeepsBody | backend/config/exceptions.py:12-18 | for a dict body the details are the body, from which the message is derived again |
| ErrorEnvelope.DetailBecomesMessage | backend/config/exceptions.py:42-43 | a string detail is the message whatever else the body holds |
| ErrorEnvelope.DetailLeafBecomesMessage | backend/config/exceptions.py:42-43 | an ErrorDetail under `detail` gives its text, without the code |
| ErrorEnvelope.NestedDetailMessage | backend/config/exceptions.py:38-51 | a nested serializer error shows its ErrorDetail leaves in their repr form, code included |
| ScheduleTypes.DayKey | frontend/src/pages/ScheduleView.tsx:46 | `place.day \|\| 1`: a missing or zero day counts as day 1, any other day is kept |
| ScheduleTypes.DurationOr | frontend/src/components/WeeklySchedule/WeeklyScheduleView.tsx:98 | `durationMin \|\| fallback`: a missing or zero duration takes the fallback |
| ScheduleTypes.SplitOn | frontend/src/pages/ScheduleView.tsx:93 | `split` gives at least one part and no part holds the separator |
| ScheduleTypes.SplitJoined | frontend/src/pages/ScheduleView.tsx:93 | two parts joined by the separator split back into those two |
| ScheduleTypes.NoSeparator | frontend/src/pages/ScheduleView.tsx:93 | a string without the separator splits into itself |
| ScheduleTypes.JsNumber | frontend/src/pages/ScheduleView.tsx:93 | `Number` on a part reads exactly the digit strings, as a non-negative value |
| ScheduleTypes.Clock | frontend/src/pages/ScheduleView.tsx:93 | the hours and minutes of a time, when both parts of `split(":")` read as numbers |
| ScheduleTypes.ClockMinutes | frontend/src/pages/ScheduleView.tsx:93-94 | `hours * 60 + minutes` when the time reads |
| ScheduleTypes.Pad2Reads | frontend/src/components/RouteSegmentModal/RouteSegmentModal.tsx:76-78 | `padStart(2, "0")` writes at least two digits that `Number` reads back |
| ScheduleTypes.ClockOfJoined | frontend/src/pages/ScheduleView.tsx:93 | a time written as numbers around one colon reads as those numbers |
| ScheduleTypes.ClockOfPads | frontend/src/components/RouteSegmentModal/RouteSegmentModal.tsx:76-78 | a padded time reads back as its hours and minutes |
| ScheduleTypes.FormatClockOfNat | frontend/src/components/RouteSegmentModal/RouteSegmentModal.tsx:74-78 | for a non-negative total the truncating remainders are the ordinary ones |
| ScheduleTypes.ClockReadsFormat | frontend/src/components/RouteSegmentModal/RouteSegmentModal.tsx:72-78 | a written time reads back as its hours, wrapped at 24 or not, and minutes |
| ScheduleTypes.ClockMinutesOfFormat | frontend/src/components/RouteSegmentModal/RouteSegmentModal.tsx:72-78 | a written time reads back as the total minutes, modulo a day when hours wrap |
| ScheduleTypes.ShiftClockReadsBack | frontend/src/components/PlaceList/PlaceList.tsx:586-597 | moving a time on by some minutes and reading it back adds those minutes (modulo a day when hours wrap) |
| ScheduleTypes.DayWrap | frontend/src/components/PlaceList/PlaceList.tsx:591-593 | hours wrapped at 24 and minutes make up the total modulo a day |
| ScheduleTypes.DurationParts | frontend/src/components/PlaceList/PlaceList.tsx:445-446 | `Math.floor(m / 60)` hours and `m % 60` minutes make up the duration |
| ScheduleTypes.FormatDuration | frontend/src/components/PlaceList/PlaceList.tsx:444-451 | an hour or more is written as hours and minutes, less as only minutes (a negative duration keeps its truncated remainder) |
| ScheduleTypes.DigitRunOf | frontend/src/components/PlaceList/PlaceList.tsx:448 | the digits before the first non-digit of a label |
| ScheduleTypes.ReadLabel | frontend/src/components/PlaceList/PlaceList.tsx:448-450 | a label of digits and one mark splits in only one way |
| ScheduleTypes.FormatDurationShape | frontend/src/components/PlaceList/PlaceList.tsx:444-451 | every label is a number, a unit mark and the rest |
| ScheduleTypes.LabelTailMinutes | frontend/src/components/PlaceList/PlaceList.tsx:448 | the minutes of an hours label are written after the hours |
| ScheduleTypes.FormatDurationInjective | frontend/src/components/PlaceList/PlaceList.tsx:444-451 | two durations with the same label are the same duration |
| ScheduleTypes.SameHoursLabel | frontend/src/components/PlaceList/PlaceList.tsx:448 | hours and minutes labels that agree name the same duration |
| ScheduleTypes.StrLeTotal | frontend/src/pages/ScheduleView.tsx:59 | the string comparison compares any two times |
| ScheduleTypes.StrLeTransitive | frontend/src/pages/ScheduleView.tsx:59 | the string comparison is transitive |
| ScheduleTypes.TimeLeTotal | frontend/src/pages/ScheduleView.tsx:56-60 | the visit-time order, untimed places last, compares any two places |
| ScheduleTypes.TimeLeTransitive | frontend/src/pages/ScheduleView.tsx:56-60 | the visit-time order is transitive |
| ScheduleTypes.InsertByTimeMultiset | frontend/src/pages/ScheduleView.tsx:56-60 | inserting adds exactly the place |
| ScheduleTypes.InsertByTimeSorted | frontend/src/pages/ScheduleView.tsx:56-60 | inserting into a sorted list keeps it sorted |
| ScheduleTypes.InsertBehindHead | frontend/src/pages/ScheduleView.tsx:56-60 | the head stays first when the place goes behind it |
| ScheduleTypes.HeadBeforeInserted | frontend/src/pages/ScheduleView.tsx:56-60 | the head comes before every element once the place goes behind it |
| ScheduleTypes.ConsSorted | frontend/src/pages/ScheduleView.tsx:56-60 | a place before all of a sorted list heads a sorted list |
| ScheduleTypes.InsertInFront | frontend/src/pages/ScheduleView.tsx:56-60 | a place before the head goes first and the list stays sorted |
| ScheduleTypes.SortByTimeSorted | frontend/src/pages/ScheduleView.tsx:56-60 | the sort by visit time gives a sorted list |
| ScheduleTypes.SortByTimeMultiset | frontend/src/pages/ScheduleView.tsx:56-60 | the sort by visit time is a permutation |
| ScheduleTypes.GroupOf | frontend/src/pages/ScheduleView.tsx:44-51 | a group holds exactly the places with that key, in list order |
| ScheduleTypes.GroupBy | frontend/src/pages/ScheduleView.tsx:44-51 | the keys are exactly those some place has, each with its group |
| ScheduleTypes.GroupOfEmpty | frontend/src/pages/ScheduleView.tsx:44-51 | a key no place has has an empty group |
| ScheduleTypes.GroupsPartition | frontend/src/pages/ScheduleView.tsx:44-51 | no place is in two groups |
| ScheduleTypes.FindSegment | frontend/src/components/PlaceList/PlaceList.tsx:433-441 | a listed leg with those end ids; none exactly when no leg has them |
| ScheduleTypes.FindSegmentFirst | frontend/src/components/PlaceList/PlaceList.tsx:433-441 | the leg found is the first in the list with those two ends |
| ScheduleView.DayGroup | frontend/src/pages/ScheduleView.tsx:46 | every place goes to the group of its day key |
| ScheduleView.PlacesByDay | frontend/src/pages/ScheduleView.tsx:43-61 | `placesByDay`: one entry for each day key some place has, holding that day's places sorted by visit time |
| ScheduleView.SortEach | frontend/src/pages/ScheduleView.tsx:54-61 | every group sorted, the keys kept |
| ScheduleView.PlaceShownUnderItsDay | frontend/src/pages/ScheduleView.tsx:43-61 | every place is shown under its day (a place without one under day 1), in a sorted list that is a permutation of that day's places |
| ScheduleView.Span | frontend/src/pages/ScheduleView.tsx:93-96 | a place's interval: its start in minutes and its end one duration (60 when none) later, for a timed place whose time reads |
| ScheduleView.OverlapSymmetric | frontend/src/pages/ScheduleView.tsx:106 | the overlap test is symmetric |
| ScheduleView.Timed | frontend/src/pages/ScheduleView.tsx:91 | the places without a time are skipped |
| ScheduleView.TimedDropsOnlyUntimed | frontend/src/pages/ScheduleView.tsx:91 | a place is placed exactly when it has a time |
| ScheduleView.LanesBelow | frontend/src/pages/ScheduleView.tsx:99-110 | the lanes of the placed blocks that overlap the place |
| ScheduleView.UsedLanes | frontend/src/pages/ScheduleView.tsx:110 | `usedLanes` holds exactly those lanes |
| ScheduleView.FreeLane | frontend/src/pages/ScheduleView.tsx:111-114 | the lane chosen is the least one not in use |
| ScheduleView.MaxCount | frontend/src/pages/ScheduleView.tsx:117 | the lane count is the least one above the lane and every overlapping count |
| ScheduleView.SetCounts | frontend/src/pages/ScheduleView.tsx:120-122 | every overlapping block takes the new count and the rest keep theirs |
| ScheduleView.PlaceOne | frontend/src/pages/ScheduleView.tsx:92-124 | one step appends the place in its lane with its count and updates the overlapping blocks |
| ScheduleView.PlacedKeepsApart | frontend/src/pages/ScheduleView.tsx:109-114 | overlapping blocks never share a lane |
| ScheduleView.PlacedKeepsPacked | frontend/src/pages/ScheduleView.tsx:109-114 | every lane below a block's lane is taken by an earlier overlapping block |
| ScheduleView.PlacedRaisesCounts | frontend/src/pages/ScheduleView.tsx:117-122 | a block's lane count never goes down |
| ScheduleView.PlacedKeepsCounted | frontend/src/pages/ScheduleView.tsx:117-124 | every block's count is above its own lane and above the lanes of the blocks it overlaps |
| ScheduleView.PlacedCountsPair | frontend/src/pages/ScheduleView.tsx:117-124 | for two overlapping blocks, each one's count is above the other's lane |
| ScheduleView.AssignLanes | frontend/src/pages/ScheduleView.tsx:87-128 | `assignLanesToPlaces` keeps the timed places in order. Overlapping blocks have different lanes, and lanes are packed from 0. Every count is above the lanes of the block and of all it overlaps, so side-by-side blocks never collide |
| ScheduleView.AloneInLaneZero | frontend/src/pages/ScheduleView.tsx:109-117 | a place overlapping nothing placed before goes to lane 0 of 1 |
| PlaceList.DayColorIndex | frontend/src/components/PlaceList/PlaceList.tsx:95-97 | day d gets color (d - 1) mod 7. For a day below 1 the truncated remainder is negative, which selects no color, unless it is 0 |
| PlaceList.DayColorsCycle | frontend/src/components/PlaceList/PlaceList.tsx:95-97 | colors repeat every seven days |
| PlaceList.MinTime | frontend/src/components/PlaceList/PlaceList.tsx:576-599 | a minimum time exactly for a place after a timed place with a leg to it |
| PlaceList.MinTimeFollowsLeg | frontend/src/components/PlaceList/PlaceList.tsx:576-599 | the minimum is the previous visit plus the leg, wrapped at 24 hours; an unreadable previous time gives "NaN:NaN" |
| PlaceList.TransitionOwner | frontend/src/components/PlaceList/PlaceList.tsx:508-525 | the owner of a day transition, the destination day by default |
| PlaceList.TransitionShownOnce | frontend/src/components/PlaceList/PlaceList.tsx:508-525 | a transition is drawn by at most one of its two days, by one exactly when it is owned by one of them, and by the destination when no owner is set |
| PlaceList.TrimStart | frontend/src/components/PlaceList/PlaceList.tsx:363-365 | `parseInt` skips leading white space |
| PlaceList.HexValue | frontend/src/components/PlaceList/PlaceList.tsx:363-365 | a hexadecimal digit's value |
| PlaceList.DecimalRun | frontend/src/components/PlaceList/PlaceList.tsx:363-365 | the longest run of leading decimal digits |
| PlaceList.HexRun | frontend/src/components/PlaceList/PlaceList.tsx:363-365 | the longest run of leading hexadecimal digits |
| PlaceList.Magnitude | frontend/src/components/PlaceList/PlaceList.tsx:363-365 | `parseInt` reads a value exactly when digits follow, in base 16 after "0x" |
| PlaceList.DecimalRunOfDigits | frontend/src/components/PlaceList/PlaceList.tsx:363-365 | all-digit strings are read whole |
| PlaceList.ParseIntOfDigits | frontend/src/components/PlaceList/PlaceList.tsx:354-355 | a decimal numeral reads as its value |
| PlaceList.ParseIntReadsNat | frontend/src/components/PlaceList/PlaceList.tsx:354-355 | every day number written in decimal reads back |
| PlaceList.ParseIntOfUndefined | frontend/src/components/PlaceList/PlaceList.tsx:353-355 | a missing part reads as NaN |
| PlaceList.ReplaceInDigits | frontend/src/components/PlaceList/PlaceList.tsx:364 | `replace` leaves digits alone |
| PlaceList.ReplaceAtHead | frontend/src/components/PlaceList/PlaceList.tsx:364 | `replace` of a leading pattern swaps it |
| PlaceList.DropZonesNameTheirDay | frontend/src/components/PlaceList/PlaceList.tsx:108-146 | both drop zones of a day are day targets naming that day |
| PlaceList.HeaderNamesItsDay | frontend/src/components/PlaceList/PlaceList.tsx:146 | `day-N` names day N |
| PlaceList.ContentNamesItsDay | frontend/src/components/PlaceList/PlaceList.tsx:108 | `day-content-N` names day N |
| PlaceList.HeaderText | frontend/src/components/PlaceList/PlaceList.tsx:363-365 | the text left of a header id is its digits |
| PlaceList.ContentText | frontend/src/components/PlaceList/PlaceList.tsx:363-365 | the text left of a content id is its digits |
| PlaceList.SplitHead | frontend/src/components/PlaceList/PlaceList.tsx:353 | splitting peels off the part before the first separator |
| PlaceList.TransitionIdNamesItsDays | frontend/src/components/PlaceList/PlaceList.tsx:246-355 | a transition's id reads back as its two days |
| PlaceList.ArrayMove | frontend/src/components/PlaceList/PlaceList.tsx:397 | `arrayMove` puts the item at the target, the last place for target -1, and keeps the others in order: a permutation |
| PlaceList.SpliceIn | frontend/src/components/PlaceList/PlaceList.tsx:397 | splicing an item in keeps the rest around it |
| PlaceList.TakeOut | frontend/src/components/PlaceList/PlaceList.tsx:397 | taking an item out removes exactly it |
| PlaceList.MoveTarget | frontend/src/components/PlaceList/PlaceList.tsx:395-397 | the index the item lands on, the last one when the drop target is not a place |
| PlaceList.ArrayMoveBack | frontend/src/components/PlaceList/PlaceList.tsx:397 | moving the item back from its target restores the list |
| PlaceList.SpliceEqual | frontend/src/components/PlaceList/PlaceList.tsx:397 | two lists equal at one index and equal once it is removed are equal |
| PlaceList.FindIndex | frontend/src/components/PlaceList/PlaceList.tsx:394-395 | `findIndex`: the first index with that id, -1 exactly when there is none |
| PlaceList.TakenDay | frontend/src/components/PlaceList/PlaceList.tsx:398-406 | the day the moved place takes: that of the place dropped on, when it has a non-zero one |
| PlaceList.Renumber | frontend/src/components/PlaceList/PlaceList.tsx:401-410 | every place gets order k + 1 at its new position, and only the moved one can take the target's day |
| PlaceList.HandleDragEnd | frontend/src/components/PlaceList/PlaceList.tsx:345-414 | no target does nothing. A transition dropped on one of its days toggles, when toggling is wired. A place dropped on another day's zone moves there when that is wired, and on another place reorders by `arrayMove` and `Renumber` |
| PlaceList.DropOnOwnDayDoesNothing | frontend/src/components/PlaceList/PlaceList.tsx:382-389 | dropping a place on its own day changes nothing |
| PlaceList.TransitionToggleDays | frontend/src/components/PlaceList/PlaceList.tsx:352-374 | a transition toggles exactly when dropped on one of its two days |
| PlaceList.ReorderFacts | frontend/src/components/PlaceList/PlaceList.tsx:393-412 | a reorder keeps the count, numbers 1..n, puts the moved place where the target was (last when none), and changes no other place's day |
| RouteSegmentModal.InitialDeparture | frontend/src/components/RouteSegmentModal/RouteSegmentModal.tsx:34-36 | the leg's own departure when set, else the visit time of the place it leaves, else empty |
| RouteSegmentModal.ArrivalTime | frontend/src/components/RouteSegmentModal/RouteSegmentModal.tsx:70-79 | empty exactly for an empty departure |
| RouteSegmentModal.ArrivalAfterDeparture | frontend/src/components/RouteSegmentModal/RouteSegmentModal.tsx:70-79 | read back, the arrival is the departure plus the leg, modulo a day |
| RouteSegmentModal.SegmentModal.constructor | frontend/src/components/RouteSegmentModal/RouteSegmentModal.tsx:31-37 | the dialog opens on the leg's mode or the default (driving when none is passed), the initial departure, and not editing |
| RouteSegmentModal.SegmentModal.ChangeMode | frontend/src/components/RouteSegmentModal/RouteSegmentModal.tsx:50-55 | the mode is selected, and reported with the two place ids exactly when someone listens |
| RouteSegmentModal.SegmentModal.StartEditing | frontend/src/components/RouteSegmentModal/RouteSegmentModal.tsx:224 | the editor opens, nothing else changes |
| RouteSegmentModal.SegmentModal.SetDeparture | frontend/src/components/RouteSegmentModal/RouteSegmentModal.tsx:237 | the typed value becomes the departure |
| RouteSegmentModal.SegmentModal.SubmitDeparture | frontend/src/components/RouteSegmentModal/RouteSegmentModal.tsx:57-62 | a non-empty departure is reported, and the editor closed, exactly when someone listens; otherwise nothing changes |
| RouteSegmentModal.SegmentModal.CancelDeparture | frontend/src/components/RouteSegmentModal/RouteSegmentModal.tsx:64-67 | the departure goes back to the initial one and the editor closes |
| RouteSegmentModal.SegmentModal.Arrival | frontend/src/components/RouteSegmentModal/RouteSegmentModal.tsx:242-280 | the arrival shown is empty exactly when the departure is |
| RouteSegmentModal.CancelThenSubmit | frontend/src/components/RouteSegmentModal/RouteSegmentModal.tsx:57-67 | after a cancel, whatever was typed, a submit reports the initial departure, or nothing when it is empty |
| WeeklyScheduleView.ColumnKey | frontend/src/components/WeeklySchedule/WeeklyScheduleView.tsx:65-70 | a place has column day - 1 exactly when its day is 1..7 |
| WeeklyScheduleView.PlacesByColumn | frontend/src/components/WeeklySchedule/WeeklyScheduleView.tsx:63-86 | one column for each column some place has, holding that column's places sorted by visit time |
| WeeklyScheduleView.ColumnHoldsItsDay | frontend/src/components/WeeklySchedule/WeeklyScheduleView.tsx:63-86 | column c holds exactly the places of day c + 1, for the first seven days |
| WeeklyScheduleView.GetRouteSegment | frontend/src/components/WeeklySchedule/WeeklyScheduleView.tsx:89-91 | the leg found by the two places' own ids, none exactly when there is none |
| WeeklyScheduleView.PlaceStyle | frontend/src/components/WeeklySchedule/WeeklyScheduleView.tsx:94-110 | none without a time. Otherwise the height is the duration (90 minutes by default) and the top the time from 9:00, at 80 pixels an hour; an unreadable time gives no top |
| WeeklyScheduleView.HeightMonotone | frontend/src/components/WeeklySchedule/WeeklyScheduleView.tsx:103-104 | pixels are minutes to scale |
| WeeklyScheduleView.ConnectorWhenGap | frontend/src/components/WeeklySchedule/WeeklyScheduleView.tsx:225-236 | a connector is drawn exactly when a next timed place has a leg from this one and starts strictly after this one ends |
| WeeklyScheduleView.EndTimeReadsBack | frontend/src/components/WeeklySchedule/WeeklyScheduleView.tsx:259-263 | the end time read back is the start plus the duration, unwrapped past midnight |
| WeeklySchedulePage.NonEmpty | frontend/src/pages/WeeklySchedulePage.tsx:76 | `x \|\| undefined` drops exactly the empty string |
| WeeklySchedulePage.NonZero | frontend/src/pages/WeeklySchedulePage.tsx:77 | `x \|\| undefined` drops exactly zero |
| WeeklySchedulePage.DayPlacesOf | frontend/src/pages/WeeklySchedulePage.tsx:68-78 | one place per event, in event order, each with its day and its index as order |
| WeeklySchedulePage.ConvertPlaces | frontend/src/pages/WeeklySchedulePage.tsx:67-79 | one place per event over all days |
| WeeklySchedulePage.ConvertedDay | frontend/src/pages/WeeklySchedulePage.tsx:67-79 | every converted place has a day in 1..number of days |
| WeeklySchedulePage.ConvertedPlaceAt | frontend/src/pages/WeeklySchedulePage.tsx:67-79 | the k-th event of a day is the place after all events of earlier days |
| WeeklySchedulePage.SegmentOf | frontend/src/pages/WeeklySchedulePage.tsx:85-92 | a leg from the event's id to the next event's id |
| WeeklySchedulePage.DaySegments | frontend/src/pages/WeeklySchedulePage.tsx:82-94 | fewer legs than a day's events |
| WeeklySchedulePage.DaySegmentsAre | frontend/src/pages/WeeklySchedulePage.tsx:82-94 | a day's legs are exactly those from an event with a route, not the last, to the next event |
| WeeklySchedulePage.ConvertSegments | frontend/src/pages/WeeklySchedulePage.tsx:81-95 | at least one fewer leg than events on every busy day |
| WeeklySchedulePage.DayLegConverted | frontend/src/pages/WeeklySchedulePage.tsx:81-95 | every day's legs are among the converted legs |
| WeeklySchedulePage.LegBetweenBlocks | frontend/src/pages/WeeklySchedulePage.tsx:67-95 | every leg the server reports after an event is among the converted legs and runs from that event's block id to the next event's block id, so the grid finds it between the two blocks |
| WeeklySchedulePage.LegConverted | frontend/src/pages/WeeklySchedulePage.tsx:84-92 | the leg after an event with a route is converted |
| WeeklySchedulePage.FoundWhenListed | frontend/src/components/WeeklySchedule/WeeklyScheduleView.tsx:89-91 | a listed leg whose ends are the ids of two blocks is found between them |

## Left out

- `_create_segments_parallel` (backend/apps/events/views.py:500-537): its thread pool fan-out is concurrency. It is modelled by the same per-pair step, run sequentially over `to_create` in an arbitrary order of the set.
- `GoogleMapsService.search_places` and `calculate_route` (backend/apps/routes/services.py:17-131): HTTP, the Django cache and the database cache are I/O. The provider is a function parameter that gives a leg or nothing, and nothing also stands for a falsy reply or a raised exception.
- Haversine `calculate_distance` and the frontend's Euclidean `calculateDistance`: floating point. Distance is an uninterpreted function with real values, so the optimiser results are proved as permutations and "never longer", not as numbers.
- Float rounding: `round(x, 2)` in the optimise response and `toFixed` on the frontend are left out. Percentages, pixels and kilometres are exact reals.
- The session clock: `timezone.now()`, `Date.now()` and the cache expiry clock are parameters.
- The RouteSegment model file (backend/apps/routes/models.py holds only the cache): its fields are taken from their use in the views. Deleting an event is assumed to cascade to its segments and costs.
- `is_shared` and `share_id`, used by the shared-trip views, are not fields of the Trip model shown. They are fields of the view-level trip record.
- Response bodies (`EventSerializer`, `TripSerializer`) are not modelled, for example the `events` list that trip retrieval adds; the failure `TripSerializer` raises as written is recorded below.
- backend/apps/trips/views.py:13-16 imports `TripListSerializer`, `TripMemberSerializer`, `TripMemberInviteSerializer` and `TripMemberUpdateSerializer`, and backend/apps/trips/shared_views.py:12 imports `TripDayDetailSerializer` and `TripMemberSerializer`. None of them is in backend/apps/trips/serializers.py, so as written both modules fail at import and serve nothing. TripViews and SharedViews model the modules as evidently intended: the invite takes an email and an optional role, a missing role in a role update is an invalid payload, and list, member and day responses are not shaped.
- The event and route views fail at import the same way. backend/apps/events/views.py imports `RouteSegment` (line 20), but backend/apps/routes/models.py holds only RouteCache. It also imports `RouteSegmentModelSerializer` (line 21), which backend/apps/routes/serializers.py does not define, and `EventCreateResponseSerializer` (line 27), which backend/apps/events/serializers.py does not define. backend/apps/events/serializers.py:6 imports `CostSerializer`, absent from backend/core/serializers.py. backend/apps/routes/views.py:18 imports `PlaceSearchQuerySerializer`, defined nowhere, and `PlaceSearchResponseSerializer`, which exists only in backend/apps/places/serializers.py; its line 13 also loads the broken events serializers. backend/core/models.py:28 points a foreign key at `routes.RouteSegment`, which does not exist either. Itinerary, ItineraryRules, SegmentPairs and RouteViews model the modules as evidently intended, with the RouteSegment rows taken from their use in the views.
- TripViews.TripDb.CreateTrip: models the intended response. As written, `TripSerializer` declares `ownerType` from `owner_type` (backend/apps/trips/serializers.py:32), a required field the Trip model lacks, so serialising the new trip re-raises AttributeError. `create` then answers a server error and its atomic block rolls back the trip and the owner membership.
- TripViews.TripDb.RetrieveTrip: models the intended response; as written `TripSerializer(trip).data` raises for the same missing `owner_type`, so retrieval answers a server error. (`expiresAt` has `allow_null` and would come out null.)
- TripViews.TripDb.PartialUpdate: models the intended response; as written the patch is saved at backend/apps/trips/views.py:133 and the response serialiser then raises, so the change is kept but the answer is a server error.
- SharedViews.GetShared: the shared `retrieve` (backend/apps/trips/shared_views.py:59) serialises with `TripSerializer` and fails the same way; only the lookup it performs is modelled.
- TripViews: PUT `update` is not modelled. It goes through `UpdateModelMixin.update` with the plain `TripUpdateSerializer`, which defines no `update()`, so a valid PUT by a member raises NotImplementedError (a server error). Only PATCH, which the view overrides, is modelled (TripViews.TripDb.PartialUpdate).
- `TripCreateSerializer` and `TripUpdateSerializer` declare no `startDate` or `totalDays`. A created trip therefore always has one day and no start date, and updates never change either. The code is followed here, where a reading of the views alone would suggest otherwise.
- The event reorder serializer declares only `id` and an integer `order`, and no serializer declares `recalculateRoutes`. So `'day' in event_data` never holds, the affected days are always `{1}` and routes are always recalculated.
- `sorted()` over day keys raises `TypeError` when a null day is mixed with integer days. This is modelled as an error value: `create` swallows it in its `try`, and `reorder` returns it after the atomic block has committed.
- The query order of null days: the database engine is not known. Null days sort last (the PostgreSQL default), and ties follow table order.
- `day_order`'s `DecimalField(max_digits=10, decimal_places=4)`: the fixed-point scale is modelled exactly, but overflow past ten digits is not.
- Day 0 in the back-fill command: the command skips days that are falsy (`if e.day`), so day 0 is treated like a null day. The code is followed here rather than a "non-null day" reading.
- Everything under backend/apps/users/ (Firebase and JWT): identity comes from outside and is a parameter (`user: Option<int>`, none meaning anonymous).
- The frontend refresh queue in services/api.ts and the HTTP wrappers in services/api/ and services/tripService.ts: asynchronous I/O.
- Pure UI components (maps, markers, modals other than the route segment dialog, headers, login and home pages, search boxes, buttons): no logic beyond layout.
- ScheduleView zoom, `getPlaceBlockStyle` pixel arithmetic and `getDateForDay`/`formatDayDate`/weekday names: float state and date formatting.
- `EVENT_COLORS` and the palette contents: constants with no behaviour, so only the palette index is modelled.
- Collapsed days in PlaceList (`isCollapsed`): display state only.
- `formatDuration` in RouteSummary.tsx, TransitionModal.tsx and RouteSegmentModal.tsx: the same as the PlaceList copy, which is modelled once as ScheduleTypes.FormatDuration.
- Place fields `lat`, `lng`, cost and memo on the schedule screens: they do not take part in these rules and are dropped from `ScheduleTypes.DayPlace`.
- dnd-kit's `arrayMove` is library code. It is modelled from its documented behaviour, where a negative target counts from the end.
- `parseInt` beyond 2^53: values are exact integers.
- ScheduleTypes.JsNumber: reads only a run of decimal digits (the empty run as 0). JavaScript's `Number` also reads "+5", "-5", "1.5", "0x10", "1e1" and space-padded parts, which the model reads as NaN, so a time written that way is not read by ScheduleTypes.Clock.
- `localeCompare` is modelled as code-unit order, and `Array.prototype.sort` as a stable insertion sort. Both agree with the engines for the "HH:MM" strings compared there.
- Python's `int()` on non-ASCII digits: only ASCII digits are read, with `_` between digit groups. White space, by contrast, is Python's full Unicode set (SharedViews.PySpace).
- ErrorEnvelope.QuoteRepr: `repr` escaping inside `str()` of lists and dicts is not modelled; quotes and control characters inside strings are not escaped.
- The route memo's cache key: the key `${from}-${to}` is ambiguous when place ids contain '-'. This is proved as a collision between two different pairs, but it needs ids that the route provider does not produce, so it is not claimed as a defect.
- RouteViews.GetTrip: the six views behind `get_trip` (`calculate`, `optimize` and `apply_optimization` in backend/apps/routes/views.py; `create`, `destroy` and `reorder` in backend/apps/places/views.py) are modelled from the point where the intended lookup returned the trip. As written they never get there (RouteViews.GetTripAsWritten; see Findings).
- PlaceViews.TripPlaces.Create: uses the intended next order, PlaceViews.NextOrder; as written the second place of a trip already fails (PlaceViews.NextOrderAsWritten; see Findings).
- PlaceViews.TripPlaces.Reorder: orders are kept as exact reals. The `order` column is `DecimalField(max_digits=10, decimal_places=2)`, so the saved and re-queried orders come back rounded to two decimals; ties that rounding creates, and values past ten digits, are not modelled.
- RouteViews.TripEvents.ApplyOptimization: event ids are compared as they are. The view looks up the integer primary key by the client's `CharField` id, so a non-numeric id raises ValueError (a server error) rather than not matching.
- FrontendOptimization.OptimizeRoute: assumes every leg lookup is answered. In the source, `calculateRouteDistance` awaits `calculateRoute` for each leg (frontend/src/utils/optimization.ts:109), which rejects when the directions status is not OK or the service is not initialised (frontend/src/services/googleMapsService.ts:240, 271). That rejection propagates out of `twoOptSwap` (optimization.ts:65-66) and `optimizeRoute` (optimization.ts:126, 135), which then give no result; the model's leg distance is a total function, so this failure path is not modelled.
- FrontendOptimization.CalculateRouteDistance: assumes every leg is answered; a refused leg makes the source's call reject (see FrontendOptimization.OptimizeRoute). The failing form of the same loop is MapsService.RouteMemo.CalculateTotalRoute.
- FrontendOptimization.TwoOptPass: assumes every leg is answered; a refused leg during a pass makes the source reject (see FrontendOptimization.OptimizeRoute).
- FrontendOptimization.TwoOptSwap: assumes every leg is answered; a refused leg makes the source reject (see FrontendOptimization.OptimizeRoute).
- GuestTripStore.WithPlace: the `alert` shown when the 10-place limit is reached (frontend/src/stores/tripStore.ts:54) is a UI side effect and is left out; only the unchanged state is modelled.
- Itinerary.TripStore.UpdateRoute: the currency is an option that defaults to KRW, so an explicit JSON `"currency": null` is treated like a missing field. The source's `request.data.get('currency', 'KRW')` (backend/apps/events/views.py:607) returns None for it, and that None would be written to the cost; the same holds for Itinerary.UpdateRouteTables.
- MapsService.RouteMemo.CalculateRoute: the rejection "directionsService not initialized", before the maps library has loaded, is not modelled; the directions service is a function parameter that is always there.

## Findings

| source | as written | input that shows it | evidently intended | confidence | as-written member | corrected member |
|---|---|---|---|---|---|---|
| backend/apps/routes/views.py:82 | `trip.is_expired()` is called on a Trip, whose model defines no such method. backend/apps/routes/views.py already fails at import (see Left out), so as written the failure shows through the same call at backend/apps/places/views.py:67 | any trip id that exists: AttributeError, a server error (RouteViews.NoTripPassesAsWritten) | TRIP_EXPIRED only once the trip's expiry has passed, else the trip | not executed | RouteViews.GetTripAsWritten | RouteViews.GetTrip |
| backend/config/exceptions.py:34-35 | `get_error_code` looks up the raised exception's own class name. `get_object_or_404` raises Django's `Http404`, which the framework's handler answers with a 404 but which is not in the table | a request for a missing trip, place or member (backend/apps/places/views.py:65, 137, 156; backend/apps/trips/views.py:207, 218): code `UNKNOWN_ERROR` (ErrorEnvelope.Http404UnknownAsWritten) | `RESOURCE_NOT_FOUND`, as for the framework's own `NotFound` | not executed | ErrorEnvelope.ErrorCode | ErrorEnvelope.HandledErrorCode |
| backend/apps/places/views.py:118-119 | `(max_order or 0) + 1.0` adds a float to the Decimal maximum of the two-decimal `order` column | a trip whose one place has order 1.00, then a second create: TypeError, a server error (PlaceViews.SecondPlaceFailsAsWritten) | one past the largest order | not executed | PlaceViews.NextOrderAsWritten | PlaceViews.NextOrder |
