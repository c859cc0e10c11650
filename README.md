# Cab booking dispatch engine, modelled in Dafny

This project models the `CabBookingSystem` dispatch engine of a small
cab-booking console program. The engine has five parts:

- a fleet of cabs, each with an id, a driver, a location node and an
  "available" flag;
- an undirected weighted road graph kept as adjacency lists;
- the rides in progress, keyed by ride id;
- a ledger of completed rides;
- a first-in first-out backlog of pickups that no cab could serve.

Each pickup is served by the nearest available cab. Distance is the
shortest-path (Dijkstra) distance over the road graph. Equally near cabs are
ordered by the smaller id.

The model is split into these modules:

- `RoadNetwork` (`road_network.dfy`) holds the graph, road insertion and the
  Dijkstra search. The search is an imperative method over a priority queue,
  proved against walks and shortest distances.
- `Selection` (`selection.dfy`) holds the nearest-cab fold, the sentinel-based
  scan the program actually runs, and the fare.
- `DispatchState` (`dispatch_state.dfy`) holds the engine as a value
  (`Engine`). It defines the invariant that holds between operations and one
  transition relation per operation. Its lemmas prove that every transition
  keeps the invariant.
- `CabBooking` (`cab_booking_system.dfy`) holds the class
  `CabBookingSystem`. Its fields are the engine's fields, and its methods
  update them in place. Each public operation is proved to perform the
  transition `DispatchState` specifies and to keep `Valid()`. The one
  deliberate departure from the code is the booking of a cab with id -1 (see
  "## Findings"). The helper `StartRide` only states the new fields. Its
  callers, `BookRide` and `AssignQueuedRideToCab`, re-establish `Valid()`
  through `BookedKeeps` and `OfferedKeeps`.
- `DemoNetwork` (`demo_network.dfy`) holds the start-up network: nodes 0..9,
  with a road of weight |i-j| between every two of them. It also holds the
  distances on that network and a tie-breaking scenario.
- `Wrappers` (`wrappers.dfy`) holds `Option`.

Behaviour of the code that the model keeps as written:

- The shortest-path lookup indexes the graph by its source node, so a lookup
  from an unknown node adds that node, with no roads, to the graph. A booking
  therefore adds the locations of all available cabs to the graph, even when
  the pickup ends up queued (`Booked`, `Offered`).
- When a freed cab is offered the oldest queued pickup and cannot reach it, the
  pickup is dropped from the queue. The cab stays unavailable without a ride
  (`DispatchState.ReleaseStrands`).
- A cab whose ride was canceled is shown as not available while it is on the
  canceled list. Its flag may be true, however, and bookings do pick it
  (`DispatchState.CabListing`).
- Cabs are scanned in ascending id order. The result does not depend on the
  order (`Selection.SelectOrderFree`).

Further points about how the model relates to the code and to the design:

- Road weights: the design requires non-negative weights, and the code does
  not check them. Here the model takes the design's rule: `AddRoad` requires
  `w >= 0`. The only roads the program adds weigh `abs(i-j)`.
- No partial state: the design says a failed match changes nothing. The model
  follows the code, which leaves graph nodes behind after a booking that
  queues its pickup. It also strands the cab when a queued pickup is
  unreachable.
- The canceled mark lasts until the cab's next assignment (lines 192 and 225)
  or a reset (line 56). This holds even when the cab became available again in
  between. The design says the same.

## Model

| member | source | states |
|---|---|---|
| RoadNetwork.WithRoadEdges | cab_booking_system.cpp:61-64 | after adding road (u,v,w), the roads are exactly the old ones plus u→v and v→u of weight w, and the nodes are the old ones plus u and v |
| RoadNetwork.WithRoadAppends | cab_booking_system.cpp:61-64 | each end's adjacency list grows by exactly the new pair, appended at the back; all other lists are unchanged |
| RoadNetwork.WithRoadKeeps | cab_booking_system.cpp:61-64 | a non-negative road keeps the graph well formed and symmetric, and every old road survives |
| RoadNetwork.WithNodesExtends | cab_booking_system.cpp:76 | a lookup that indexes unknown nodes adds exactly those nodes and changes no existing adjacency list |
| RoadNetwork.WithNodesPresent | cab_booking_system.cpp:76 | indexing nodes already in the graph leaves it unchanged |
| RoadNetwork.WithNodesUnion | cab_booking_system.cpp:76 | two rounds of node insertion equal one round with the union |
| RoadNetwork.ExtendsEdges | cab_booking_system.cpp:76 | adding isolated nodes adds no road, in either direction of the iff, and keeps well-formedness and symmetry |
| RoadNetwork.ExtendsShortest | cab_booking_system.cpp:76 | once isolated nodes are added, walks, reachability and shortest distances to a node already present are the same as before |
| RoadNetwork.ShortestUnique | cab_booking_system.cpp:66-92 | two shortest distances between the same nodes are equal |
| RoadNetwork.WalkReverse | cab_booking_system.cpp:61-64 | on a graph built from two-way roads, a walk reversed is a walk of the same cost |
| RoadNetwork.ShortestSymmetric | cab_booking_system.cpp:61-64 | the shortest distance from a to b is also the shortest distance from b to a |
| RoadNetwork.ExtractMin | cab_booking_system.cpp:74 | pops a queue entry that is least by (distance, node), as a min-heap of pairs does |
| RoadNetwork.RelaxFrontier | cab_booking_system.cpp:77-80 | after lowering dist[v] to d+w and pushing (d+w, v), every reached node is finished or waits in the queue at its distance, and every queued entry is no nearer than its node's distance |
| RoadNetwork.RelaxPrevLinks | cab_booking_system.cpp:77-79 | after setting prev[v] to u, every reached node other than the source hangs off a finished node by a road whose weight is the difference of their distances |
| RoadNetwork.RelaxRoadsKept | cab_booking_system.cpp:76-81 | the improvement leaves finished distances alone, keeps the queue at or beyond d, keeps finished nodes' roads relaxed and relaxes road k of u |
| RoadNetwork.RelaxImproves | cab_booking_system.cpp:77-81 | lowering dist[v] to d+w, setting prev[v] to u and pushing (d+w, v) advances the relaxation invariant past road k |
| RoadNetwork.RelaxKeeps | cab_booking_system.cpp:77 | a road that does not improve dist[v] leaves the search state as it is and counts as relaxed |
| RoadNetwork.RelaxRoad | cab_booking_system.cpp:77-81 | one road out of u: a strictly shorter way to its far end is recorded in dist and prev and queued, otherwise nothing changes; either way the relaxation invariant advances past that road |
| RoadNetwork.RelaxRoads | cab_booking_system.cpp:76-82 | after scanning u's adjacency list, every road out of u satisfies dist[v] <= dist[u] + w, and the frontier and predecessor links still hold |
| RoadNetwork.SkipStale | cab_booking_system.cpp:75 | dropping a queue entry whose distance exceeds the recorded one keeps the search invariant |
| RoadNetwork.StartExpand | cab_booking_system.cpp:74-75 | the least non-stale entry names a node that is in the graph and not yet settled, and settling it starts the relaxation |
| RoadNetwork.FinishExpand | cab_booking_system.cpp:76-83 | once u's roads are relaxed, the search invariant holds with u settled |
| RoadNetwork.RelaxedClosed | cab_booking_system.cpp:73-83 | when every settled node has all its roads relaxed, the distance map is closed under roads |
| RoadNetwork.ClosedDistances | cab_booking_system.cpp:73-83 | over a closed distance map, every walk ends at a recorded node whose distance is at most the start's plus the walk's cost |
| RoadNetwork.ClosedUnreachable | cab_booking_system.cpp:85 | a node left at "infinity" (absent from dist) is unreachable from the source |
| RoadNetwork.ClosedShortest | cab_booking_system.cpp:85-91 | a walk costing dist[dest] is a shortest walk |
| RoadNetwork.Search | cab_booking_system.cpp:67-83 | the loop ends with dist closed under every road, each reached node settled, and every predecessor link a road that realises the recorded distance |
| RoadNetwork.TracePath | cab_booking_system.cpp:87-90 | following predecessors back from dest and reversing gives a walk from src to dest whose cost is dist[dest]; it is [src] when dest is src |
| RoadNetwork.Dijkstra | cab_booking_system.cpp:66-92 | no route (-1) iff dest is unreachable; otherwise the path is a walk from src to dest, and its cost is the shortest distance; src to itself is distance 0 with path [src] |
| Selection.Step | cab_booking_system.cpp:207-209 | the offer replaces the best so far only when it is nearer, or as near with a smaller id; the result is no worse than either |
| Selection.Select | cab_booking_system.cpp:201-210 | no winner iff there are no offers; otherwise the winner is one of the offers and no offer is nearer, or as near with a smaller id |
| Selection.NotAfterAntisymmetric | cab_booking_system.cpp:207 | the (distance, id) order is antisymmetric |
| Selection.SelectOrderFree | cab_booking_system.cpp:202 | offers of distinct cabs select the same winner in any scan order |
| Selection.ScanAsWrittenTracksSelect | cab_booking_system.cpp:201-210 | while distances stay below INT_MAX, the scan with sentinels -1 and INT_MAX holds the sentinels when there is no offer, and the selected offer otherwise |
| Selection.BooksAsWrittenExactly | cab_booking_system.cpp:211 | the code books a cab iff some offer exists and the winner's id is not -1 |
| Selection.MinusOneCabIsQueued | cab_booking_system.cpp:211-215 | a lone reachable cab with id -1 wins the scan, yet the pickup is queued |
| Selection.Fare | cab_booking_system.cpp:239 | the fare is never negative and is a multiple of ten; it is ten per distance unit for a non-negative distance, and zero otherwise |
| DispatchState.NextRideIdFresh | cab_booking_system.cpp:45 | the next ride id is not used by any active or completed ride, and every active ride's cab is unavailable |
| DispatchState.ScanStarts | cab_booking_system.cpp:201 | the scan starts with no cab seen and no best offer |
| DispatchState.ScanTakes | cab_booking_system.cpp:205-209 | an available cab's true shortest-distance offer is folded into the best so far |
| DispatchState.ScanFinds | cab_booking_system.cpp:202-215 | after all cabs are seen: no best iff no available cab can reach the pickup; otherwise the best is the nearest available cab, with the smallest id among ties |
| DispatchState.CabListing | cab_booking_system.cpp:129-157 | a cab shows a ride id iff it is on an active ride, and that ride is its own; it shows "Yes" iff its flag is set and it is not on the canceled list |
| DispatchState.WithNodesKeeps | cab_booking_system.cpp:76 | adding isolated nodes to the graph keeps the engine invariant |
| DispatchState.WithRoadKeepsInv | cab_booking_system.cpp:61-64 | adding a non-negative road keeps the engine invariant |
| DispatchState.SetAvailableKeeps | cab_booking_system.cpp:177 | marking a cab without a ride available or unavailable keeps the invariant |
| DispatchState.AssignKeeps | cab_booking_system.cpp:217-225 | giving a cab without a ride a new ride at a graph node, along a walk ending there, keeps the invariant (every active ride's path ends at its pickup) and advances the ride counter by one |
| DispatchState.BookedKeeps | cab_booking_system.cpp:199-228 | a booking, whether assigned or queued, keeps the invariant |
| DispatchState.OfferedKeeps | cab_booking_system.cpp:170-197 | a backlog offer to a cab without a ride keeps the invariant, whether the cab takes it, is stranded or the pickup is invalid |
| DispatchState.ReleasedKeeps | cab_booking_system.cpp:248-256 | freeing a cab, to the queue's oldest pickup or to availability, keeps the invariant |
| DispatchState.FinishKeeps | cab_booking_system.cpp:234-246 | completing a ride along a walk from its pickup keeps the invariant; the cab is left without a ride |
| DispatchState.CancelKeeps | cab_booking_system.cpp:268-272 | canceling a ride keeps the invariant; the cab is left without a ride |
| DispatchState.ResetKeeps | cab_booking_system.cpp:52-59 | the availability reset keeps the invariant |
| DispatchState.AddCabKeeps | cab_booking_system.cpp:94-99 | adding a cab under a fresh id keeps the invariant |
| DispatchState.ReleaseStrands | cab_booking_system.cpp:176-183 | when the queue's oldest pickup is unreachable for the freed cab, the pickup leaves the queue and no ride is opened; the cab is left unavailable without a ride |
| CabBooking.LeastKey | cab_booking_system.cpp:53 | returns the smallest id of a non-empty set, the next key of an ordered map walk |
| CabBooking.CabBookingSystem.constructor | cab_booking_system.cpp:39-45 | an empty engine whose ride ids start at 1 |
| CabBooking.CabBookingSystem.ResetAvailability | cab_booking_system.cpp:52-59 | every cab becomes available; active rides, the queue and the canceled list are emptied; everything else is unchanged |
| CabBooking.CabBookingSystem.AddRoad | cab_booking_system.cpp:61-64 | the graph becomes the old one with the road appended at both ends; nothing else changes |
| CabBooking.CabBookingSystem.ShortestPath | cab_booking_system.cpp:66-92 | the graph gains the source as a node; the answer, measured on the old graph, is none iff dest is unreachable, and otherwise a shortest walk with its distance |
| CabBooking.CabBookingSystem.AddCab | cab_booking_system.cpp:94-99 | adds an available cab iff its id is new; otherwise nothing changes |
| CabBooking.CabBookingSystem.StartRide | cab_booking_system.cpp:186-190 | the cab goes to the pickup, unavailable, on a new ride with the next ride id; the id counter advances and the cab leaves the canceled list |
| CabBooking.CabBookingSystem.AssignQueuedRideToCab | cab_booking_system.cpp:170-197 | an unknown pickup changes nothing; an unreachable one leaves the cab unavailable with its location added to the graph; otherwise the cab takes a new ride along a shortest walk |
| CabBooking.CabBookingSystem.ScanCabs | cab_booking_system.cpp:201-210 | the graph gains exactly the available cabs' locations; the scan ends having seen every cab, with the best offer among the available cabs' true shortest-route offers |
| CabBooking.CabBookingSystem.BookRide | cab_booking_system.cpp:199-228 | an unknown pickup changes nothing; otherwise the available cabs' locations join the graph, and either no available cab reaches the pickup and it is queued at the back, or the nearest cab (smallest id among ties) takes a new ride |
| CabBooking.CabBookingSystem.ReleaseCab | cab_booking_system.cpp:248-256 | with an empty queue the cab becomes available; otherwise the oldest pickup is removed from the queue and offered to the cab |
| CabBooking.CabBookingSystem.EndRide | cab_booking_system.cpp:230-260 | an unknown ride, an unknown drop or an unreachable drop changes nothing; otherwise the ride is completed along a shortest walk with fare ten per unit, the cab moves to the drop, and the cab is released |
| CabBooking.CabBookingSystem.CancelRide | cab_booking_system.cpp:263-287 | an unknown ride changes nothing; otherwise the ride is removed, the cab is added to the canceled list, and the cab is released |
| DemoNetwork.BuildDemoNetwork | cab_booking_system.cpp:348-350 | the start-up loops leave exactly the roads i–j of weight abs(i-j) between distinct nodes of 0..9, and change nothing else |
| DemoNetwork.DemoWalkBound | cab_booking_system.cpp:348-350 | on the start-up network no walk costs less than the gap between its ends |
| DemoNetwork.DemoDistances | cab_booking_system.cpp:348-350 | on the start-up network the shortest distance between two nodes is abs(a-b) |
| DemoNetwork.DemoTieBreak | cab_booking_system.cpp:207 | cabs 7 at node 2 and 3 at node 6 are both two units from pickup 4; cab 3 wins, via path [6, 4] |

## Left out

- File persistence (`loadCabs`, `saveCabs`, the cab file path) and the destructor are left out. They are I/O.
- Console messages and the ANSI colours of the listings are left out. They are output only.
- The renderers `listActiveRides`, `listCompletedRides` and `listQueuedRides` are left out, as is the table layout of `listCabs`. They only print. Only the status logic of `listCabs` is modelled (`CabListing`).
- The interactive menu of `main` is left out. It is I/O. Only its road-building loop is modelled.
- tempCodeRunnerFile.cpp is not part of this model. It is an editor scratch fragment.
- 32-bit `int` overflow is not modelled: distances, fares and ride ids are unbounded. In the code a sum `d + w` past INT_MAX wraps around and would be recorded as an improvement, and a distance equal to INT_MAX would read as "unreachable". The model rules both out by computing with unbounded integers. `ScanAsWrittenTracksSelect` requires every distance below INT_MAX for the second reason.
- The binary-heap layout of `std::priority_queue` is not modelled. The queue is a set of (distance, node) pairs, and the least pair is extracted. Ties between equal pairs cannot arise, because pairs in a set are distinct.
- RoadNetwork.Dijkstra: states that the result is a shortest walk, not which of several equally short walks the predecessor links pick. It requires both ends in the graph and non-negative weights. The class method `ShortestPath` adds the source node first, as the code does.
- CabBooking.CabBookingSystem.BookRide: books a winning cab with id -1, where the code queues the pickup at line 211. The model uses the corrected choice `Selection.Select`. The code's behaviour is stated by `Selection.BooksAsWrittenExactly` and shown by `Selection.MinusOneCabIsQueued` (see "## Findings").
- CabBooking.CabBookingSystem.StartRide: states only the new fields, not `Valid()`. It is a step inside `BookRide` and `AssignQueuedRideToCab`, whose contracts carry the invariant.
- CabBooking.CabBookingSystem.AddRoad: requires `w >= 0`, which the code never checks. Negative roads would break the shortest-path reasoning.
- CabBooking.CabBookingSystem.AssignQueuedRideToCab: requires the cab to exist and to be without a ride. Its only callers, ride end and ride cancel, guarantee both. The code would otherwise default-construct a cab through `cabs[cabId]`.
- CabBooking.CabBookingSystem.ReleaseCab: requires the cab to exist and to be without a ride. These hold at both call sites, after the ride has left the active rides.
- DispatchState.CabListing: requires the engine invariant, under which every active ride names an existing cab.

## Findings

| source | as written | input that shows it | evidently intended | confidence | as-written member | corrected member |
|---|---|---|---|---|---|---|
| cab_booking_system.cpp:211 | the scan's best id -1 is read as "no cab found" | the only available cab has id -1 and can reach the pickup; it wins the scan, yet the pickup is queued | book the winning cab whatever its id | not executed | Selection.MinusOneCabIsQueued | Selection.Select |
