/**
  The state of the dispatch engine as a value, the invariant every operation
  keeps, and the state each operation produces. The class in
  cab_booking_system.dfy updates its fields in place and is specified by the
  functions and predicates here; the lemmas here prove that every operation
  keeps the invariant.
 */
module DispatchState {
  import opened Wrappers
  import opened RoadNetwork
  import opened Selection

  /** A cab of the fleet: new cabs start out available. */
  datatype Cab = Cab(id: int, driver: string, location: int, available: bool)

  /**
    A ride. While it is in progress `drop` is the sentinel -1 and `distance` and
    `fare` are 0, and `path` is the road the cab drove to the pickup; a completed
    ride records the drop, the distance and fare of the trip and the trip's path.
   */
  datatype Ride = Ride(rideId: int, cabId: int, pickup: int, drop: int, distance: int,
                       fare: int, path: seq<int>, inProgress: bool)

  /** A freshly booked ride. */
  function NewRide(rideId: int, cabId: int, pickup: int, path: seq<int>): Ride {
    Ride(rideId, cabId, pickup, -1, 0, 0, path, true)
  }

  /** The engine's fields, in the order the class declares them. */
  datatype Engine = Engine(cabs: map<int, Cab>, activeRides: map<int, Ride>,
                           completedRides: seq<Ride>, graph: Graph, rideQueue: seq<int>,
                           canceledCabs: set<int>, nextRideId: int)

  // ---------------------------------------------------------------------------
  // The invariant
  // ---------------------------------------------------------------------------

  /** No active ride uses cab `cabId`. */
  predicate Idle(e: Engine, cabId: int) {
    forall n :: n in e.activeRides ==> e.activeRides[n].cabId != cabId
  }

  /** `path` is a walk over `g` ending at `pickup`: the leg a cab drove to take a ride there. */
  ghost predicate ArrivesAt(g: Graph, path: seq<int>, pickup: int) {
    exists s: int, c: int :: Walk(g, path, s, pickup, c)
  }

  /** A leg survives any change to the graph that only adds roads and nodes. */
  lemma ArrivesAtGrows(g: Graph, g2: Graph, path: seq<int>, pickup: int)
    requires Grows(g, g2) && ArrivesAt(g, path, pickup)
    ensures ArrivesAt(g2, path, pickup)
  {
    var s: int, c: int :| Walk(g, path, s, pickup, c);
    GrowsWalk(g, g2, path, c);
    assert Walk(g2, path, s, pickup, c);
  }

  /**
    Active ride `n` is filed under its own id, which was issued, its cab is
    busy at the pickup, and its path is a walk that ends there.
   */
  ghost predicate ActiveOk(e: Engine, n: int)
    requires n in e.activeRides
  {
    var r := e.activeRides[n];
    && r.rideId == n && 1 <= n < e.nextRideId
    && r.cabId in e.cabs && !e.cabs[r.cabId].available && e.cabs[r.cabId].location == r.pickup
    && r.pickup in e.graph && r.inProgress && r.drop == -1
    && ArrivesAt(e.graph, r.path, r.pickup)
  }

  /** No cab serves two active rides. */
  predicate OneRidePerCab(e: Engine) {
    forall n1, n2 ::
      (n1 in e.activeRides && n2 in e.activeRides &&
       e.activeRides[n1].cabId == e.activeRides[n2].cabId) ==> n1 == n2
  }

  /** Completed ride `i` had an issued id no longer active, and its path, distance and fare agree. */
  ghost predicate CompletedOk(e: Engine, i: int)
    requires 0 <= i < |e.completedRides|
  {
    var r := e.completedRides[i];
    && 1 <= r.rideId < e.nextRideId && r.rideId !in e.activeRides
    && !r.inProgress && r.cabId in e.cabs
    && r.distance >= 0 && Walk(e.graph, r.path, r.pickup, r.drop, r.distance)
    && r.fare == Fare(r.distance)
  }

  /** Every ride completes at most once. */
  predicate CompletedOnce(e: Engine) {
    forall i, j ::
      (0 <= i < |e.completedRides| && 0 <= j < |e.completedRides| &&
       e.completedRides[i].rideId == e.completedRides[j].rideId) ==> i == j
  }

  /** What holds between any two operations. */
  ghost predicate EngineInv(e: Engine) {
    && WellFormed(e.graph) && Symmetric(e.graph)
    && (forall k :: k in e.cabs ==> e.cabs[k].id == k)
    && e.nextRideId >= 1
    && (forall n :: n in e.activeRides ==> ActiveOk(e, n))
    && OneRidePerCab(e)
    && (forall i :: 0 <= i < |e.rideQueue| ==> e.rideQueue[i] in e.graph)
    && (forall i :: 0 <= i < |e.completedRides| ==> CompletedOk(e, i))
    && CompletedOnce(e)
    && e.canceledCabs <= e.cabs.Keys
  }

  /**
    Ride ids are never reused: the next id is neither active nor completed, and
    every cab on an active ride is out of service.
   */
  lemma NextRideIdFresh(e: Engine)
    requires EngineInv(e)
    ensures e.nextRideId !in e.activeRides
    ensures forall i :: 0 <= i < |e.completedRides| ==> e.completedRides[i].rideId != e.nextRideId
    ensures forall n :: n in e.activeRides ==> !e.cabs[e.activeRides[n].cabId].available
  {
    forall n | n in e.activeRides ensures n != e.nextRideId {
      assert ActiveOk(e, n);
    }
    forall i | 0 <= i < |e.completedRides| ensures e.completedRides[i].rideId != e.nextRideId {
      assert CompletedOk(e, i);
    }
    forall n | n in e.activeRides ensures !e.cabs[e.activeRides[n].cabId].available {
      assert ActiveOk(e, n);
    }
  }

  // ---------------------------------------------------------------------------
  // Operations on the state
  // ---------------------------------------------------------------------------

  /** The locations of the available cabs among `ids`: the nodes a booking's scan looks up. */
  function AvailableAt(cabs: map<int, Cab>, ids: set<int>): set<int> {
    set k | k in ids && k in cabs && cabs[k].available :: cabs[k].location
  }

  /** Cab `k` can serve `pickup`, at shortest distance `d`. */
  ghost predicate CanServe(e: Engine, pickup: int, k: int, d: nat) {
    k in e.cabs && e.cabs[k].available && IsShortest(e.graph, e.cabs[k].location, pickup, d)
  }

  /** The offer `o` is a cab's true offer: it can serve at that distance along that path. */
  ghost predicate Serves(e: Engine, pickup: int, o: Offer) {
    CanServe(e, pickup, o.id, o.dist) && Walk(e.graph, o.path, e.cabs[o.id].location, pickup, o.dist)
  }

  /** The offer `o` wins: it is true, and no other cab is nearer or as near with a smaller id. */
  ghost predicate Nearest(e: Engine, pickup: int, o: Offer) {
    && Serves(e, pickup, o)
    && forall k, d: nat :: CanServe(e, pickup, k, d) ==> NotAfter(o, Offer(k, d, []))
  }

  /** No available cab can reach `pickup`. */
  ghost predicate NoCabReaches(e: Engine, pickup: int) {
    forall k :: k in e.cabs && e.cabs[k].available ==> !Reachable(e.graph, e.cabs[k].location, pickup)
  }

  /**
    The booking scan after visiting the cabs in `seen`: `offers` are the true
    offers made so far, `best` the one the scan keeps, and it is no worse than
    any seen cab that can serve the pickup.
   */
  ghost predicate Scanned(e: Engine, pickup: int, seen: set<int>, offers: seq<Offer>, best: Option<Offer>) {
    && best == Select(offers)
    && (forall o :: o in offers ==> o.id in seen && Serves(e, pickup, o))
    && (forall k ::
          (k in seen && k in e.cabs && e.cabs[k].available &&
           Reachable(e.graph, e.cabs[k].location, pickup)) ==> best.Some?)
    && (forall k, d: nat ::
          (k in seen && CanServe(e, pickup, k, d)) ==> best.Some? && NotAfter(best.value, Offer(k, d, [])))
  }

  /** Nothing is scanned yet. */
  lemma ScanStarts(e: Engine, pickup: int)
    ensures Scanned(e, pickup, {}, [], None)
  {
  }

  /** A cab out of service, or one that cannot reach the pickup, leaves the scan as it was. */
  lemma ScanSkips(e: Engine, pickup: int, seen: set<int>, offers: seq<Offer>, best: Option<Offer>, k: int)
    requires Scanned(e, pickup, seen, offers, best) && k in e.cabs
    requires !e.cabs[k].available || !Reachable(e.graph, e.cabs[k].location, pickup)
    ensures Scanned(e, pickup, seen + {k}, offers, best)
  {
  }

  /** A cab's true offer is folded into the scan. */
  lemma ScanTakes(e: Engine, pickup: int, seen: set<int>, offers: seq<Offer>, best: Option<Offer>, o: Offer)
    requires Scanned(e, pickup, seen, offers, best) && Serves(e, pickup, o)
    ensures Scanned(e, pickup, seen + {o.id}, offers + [o], Step(best, o))
  {
    var loc := e.cabs[o.id].location;
    forall d: nat | CanServe(e, pickup, o.id, d) ensures d == o.dist {
      ShortestUnique(e.graph, loc, pickup, d, o.dist);
    }
    assert (offers + [o])[..|offers|] == offers;
  }

  /**
    Once every cab is scanned, the scan keeps nothing exactly when no available
    cab reaches the pickup, and otherwise keeps the nearest cab's offer, lowest
    id among the nearest.
   */
  lemma ScanFinds(e: Engine, pickup: int, offers: seq<Offer>, best: Option<Offer>)
    requires Scanned(e, pickup, e.cabs.Keys, offers, best)
    ensures best.None? <==> NoCabReaches(e, pickup)
    ensures best.Some? ==> Nearest(e, pickup, best.value)
  {
    if best.None? {
      forall k | k in e.cabs && e.cabs[k].available
        ensures !Reachable(e.graph, e.cabs[k].location, pickup)
      {
      }
    } else {
      var o := best.value;
      assert o in offers;
      assert Serves(e, pickup, o);
      var k := o.id;
      assert !Reachable(e.graph, e.cabs[k].location, pickup) ==> false by {
        var p :| Walk(e.graph, p, e.cabs[k].location, pickup, o.dist);
      }
    }
  }

  /** Cab `cabId` takes ride `nextRideId` at `pickup`, having driven `path` (the graph aside). */
  function Assign(e: Engine, cabId: int, pickup: int, path: seq<int>): Engine
    requires cabId in e.cabs
  {
    var n := e.nextRideId;
    e.(cabs := e.cabs[cabId := e.cabs[cabId].(available := false, location := pickup)],
       activeRides := e.activeRides[n := NewRide(n, cabId, pickup, path)],
       canceledCabs := e.canceledCabs - {cabId},
       nextRideId := n + 1)
  }

  /** Cab `cabId` marked available or not. */
  function SetAvailable(e: Engine, cabId: int, b: bool): Engine
    requires cabId in e.cabs
  {
    e.(cabs := e.cabs[cabId := e.cabs[cabId].(available := b)])
  }

  /**
    A booking at `pickup`, a node of the graph, that chose `chosen`. The scan
    looks up the location of every available cab. With no cab able to reach the
    pickup it joins the back of the queue; otherwise the nearest cab, lowest id
    among the nearest, takes a new ride there.
   */
  ghost predicate Booked(e: Engine, e2: Engine, pickup: int, chosen: Option<Offer>) {
    var g := WithNodes(e.graph, AvailableAt(e.cabs, e.cabs.Keys));
    if chosen.None? then
      && NoCabReaches(e, pickup)
      && e2 == e.(graph := g, rideQueue := e.rideQueue + [pickup])
    else
      && Nearest(e, pickup, chosen.value)
      && e2 == Assign(e, chosen.value.id, pickup, chosen.value.path).(graph := g)
  }

  /**
    A queued pickup offered to cab `cabId`. An unknown pickup changes nothing.
    Otherwise the cab is taken out of service first; if it cannot reach the
    pickup it stays so, with no ride, else it takes a new ride there along a
    shortest path.
   */
  ghost predicate Offered(e: Engine, e2: Engine, cabId: int, pickup: int)
    requires cabId in e.cabs
  {
    var from := e.cabs[cabId].location;
    var g := WithNodes(e.graph, {from});
    if pickup !in e.graph then e2 == e
    else if !Reachable(e.graph, from, pickup) then e2 == SetAvailable(e, cabId, false).(graph := g)
    else
      && e.nextRideId in e2.activeRides
      && ShortestWalk(e.graph, e2.activeRides[e.nextRideId].path, from, pickup)
      && e2 == Assign(e, cabId, pickup, e2.activeRides[e.nextRideId].path).(graph := g)
  }

  /** A cab freed by an ended or canceled ride: it serves the oldest queued pickup, or becomes available. */
  ghost predicate Released(e: Engine, e2: Engine, cabId: int)
    requires cabId in e.cabs
  {
    if e.rideQueue == [] then e2 == SetAvailable(e, cabId, true)
    else Offered(e.(rideQueue := e.rideQueue[1..]), e2, cabId, e.rideQueue[0])
  }

  /** Ride `rideId` ends at `drop` after `dist` units along `path`; its cab is left at the drop. */
  function Finish(e: Engine, rideId: int, drop: int, dist: nat, path: seq<int>): Engine
    requires rideId in e.activeRides && e.activeRides[rideId].cabId in e.cabs
  {
    var r := e.activeRides[rideId];
    e.(completedRides := e.completedRides +
         [r.(drop := drop, distance := dist, fare := Fare(dist), path := path, inProgress := false)],
       activeRides := e.activeRides - {rideId},
       cabs := e.cabs[r.cabId := e.cabs[r.cabId].(location := drop)])
  }

  /** Ride `rideId` is dropped without completing; its cab is marked as canceled. */
  function Cancel(e: Engine, rideId: int): Engine
    requires rideId in e.activeRides
  {
    e.(activeRides := e.activeRides - {rideId},
       canceledCabs := e.canceledCabs + {e.activeRides[rideId].cabId})
  }

  /** Every cab available again; no ride in progress, none queued, none canceled. */
  function Reset(e: Engine): Engine {
    e.(cabs := map k | k in e.cabs :: e.cabs[k].(available := true),
       activeRides := map[], rideQueue := [], canceledCabs := {})
  }

  /** How the cab listing shows a cab: its "Available" column and the ride it is on, if any. */
  datatype Listing = Listing(shownAvailable: bool, rideId: Option<int>)

  /**
    The status the cab listing derives for cab `k`: a cab on an active ride is
    shown busy with that ride, else a canceled cab is shown not available, else
    the cab's own flag is shown.
   */
  ghost function CabListing(e: Engine, k: int): (l: Listing)
    requires EngineInv(e) && k in e.cabs
    ensures l.rideId.Some? <==> !Idle(e, k)
    ensures l.rideId.Some? ==> l.rideId.value in e.activeRides && e.activeRides[l.rideId.value].cabId == k
    ensures l.shownAvailable <==> e.cabs[k].available && k !in e.canceledCabs
  {
    if !Idle(e, k) then
      var n :| n in e.activeRides && e.activeRides[n].cabId == k;
      assert ActiveOk(e, n);
      Listing(false, Some(n))
    else if k in e.canceledCabs then Listing(false, None)
    else Listing(e.cabs[k].available, None)
  }

  // ---------------------------------------------------------------------------
  // Every operation keeps the invariant
  // ---------------------------------------------------------------------------

  /** Lookups that add isolated nodes keep the invariant. */
  lemma WithNodesKeeps(e: Engine, xs: set<int>)
    requires EngineInv(e)
    ensures EngineInv(e.(graph := WithNodes(e.graph, xs)))
  {
    var g2 := WithNodes(e.graph, xs);
    var e2 := e.(graph := g2);
    WithNodesExtends(e.graph, xs);
    ExtendsEdges(e.graph, g2);
    forall i | 0 <= i < |e.completedRides| ensures CompletedOk(e2, i) {
      var r := e.completedRides[i];
      assert CompletedOk(e, i);
      GrowsWalk(e.graph, g2, r.path, r.distance);
    }
    forall n | n in e2.activeRides ensures ActiveOk(e2, n) {
      assert ActiveOk(e, n);
      ArrivesAtGrows(e.graph, g2, e.activeRides[n].path, e.activeRides[n].pickup);
    }
  }

  /** A road of non-negative weight keeps the invariant. */
  lemma WithRoadKeepsInv(e: Engine, u: int, v: int, w: int)
    requires EngineInv(e) && w >= 0
    ensures EngineInv(e.(graph := WithRoad(e.graph, u, v, w)))
  {
    var g2 := WithRoad(e.graph, u, v, w);
    var e2 := e.(graph := g2);
    WithRoadKeeps(e.graph, u, v, w);
    forall i | 0 <= i < |e.completedRides| ensures CompletedOk(e2, i) {
      var r := e.completedRides[i];
      assert CompletedOk(e, i);
      GrowsWalk(e.graph, g2, r.path, r.distance);
    }
    forall n | n in e2.activeRides ensures ActiveOk(e2, n) {
      assert ActiveOk(e, n);
      ArrivesAtGrows(e.graph, g2, e.activeRides[n].path, e.activeRides[n].pickup);
    }
  }

  /** A cab without a ride can be taken in or out of service. */
  lemma SetAvailableKeeps(e: Engine, cabId: int, b: bool)
    requires EngineInv(e) && cabId in e.cabs && Idle(e, cabId)
    ensures EngineInv(SetAvailable(e, cabId, b))
  {
    var e2 := SetAvailable(e, cabId, b);
    forall n | n in e2.activeRides ensures ActiveOk(e2, n) {
      assert ActiveOk(e, n);
    }
    forall i | 0 <= i < |e2.completedRides| ensures CompletedOk(e2, i) {
      assert CompletedOk(e, i);
    }
  }

  /** A cab without a ride taking a new ride, along a walk to a node of the graph, keeps the invariant. */
  lemma AssignKeeps(e: Engine, cabId: int, pickup: int, path: seq<int>)
    requires EngineInv(e) && cabId in e.cabs && Idle(e, cabId) && pickup in e.graph
    requires ArrivesAt(e.graph, path, pickup)
    ensures EngineInv(Assign(e, cabId, pickup, path))
    ensures Assign(e, cabId, pickup, path).nextRideId == e.nextRideId + 1
  {
    var e2 := Assign(e, cabId, pickup, path);
    var n := e.nextRideId;
    NextRideIdFresh(e);
    forall m | m in e2.activeRides ensures ActiveOk(e2, m) {
      if m != n {
        assert ActiveOk(e, m);
      }
    }
    forall i | 0 <= i < |e2.completedRides| ensures CompletedOk(e2, i) {
      assert CompletedOk(e, i);
    }
  }

  /** A booking keeps the invariant. */
  lemma BookedKeeps(e: Engine, e2: Engine, pickup: int, chosen: Option<Offer>)
    requires EngineInv(e) && pickup in e.graph && Booked(e, e2, pickup, chosen)
    ensures EngineInv(e2)
  {
    var xs := AvailableAt(e.cabs, e.cabs.Keys);
    var e1 := e.(graph := WithNodes(e.graph, xs));
    WithNodesKeeps(e, xs);
    WithNodesExtends(e.graph, xs);
    if chosen.Some? {
      var k := chosen.value.id;
      forall n | n in e1.activeRides ensures e1.activeRides[n].cabId != k {
        assert ActiveOk(e, n);
      }
      var o := chosen.value;
      assert Walk(e.graph, o.path, e.cabs[k].location, pickup, o.dist);
      ExtendsEdges(e.graph, e1.graph);
      ArrivesAtGrows(e.graph, e1.graph, o.path, pickup);
      AssignKeeps(e1, k, pickup, o.path);
    } else {
      forall n | n in e2.activeRides ensures ActiveOk(e2, n) {
        assert ActiveOk(e1, n);
      }
      forall i | 0 <= i < |e2.completedRides| ensures CompletedOk(e2, i) {
        assert CompletedOk(e1, i);
      }
    }
  }

  /** A queued pickup offered to a cab without a ride keeps the invariant. */
  lemma OfferedKeeps(e: Engine, e2: Engine, cabId: int, pickup: int)
    requires EngineInv(e) && cabId in e.cabs && Idle(e, cabId) && Offered(e, e2, cabId, pickup)
    ensures EngineInv(e2)
  {
    if pickup in e.graph {
      var from := e.cabs[cabId].location;
      WithNodesKeeps(e, {from});
      WithNodesExtends(e.graph, {from});
      var e1 := e.(graph := WithNodes(e.graph, {from}));
      if !Reachable(e.graph, from, pickup) {
        SetAvailableKeeps(e1, cabId, false);
      } else {
        var path := e2.activeRides[e.nextRideId].path;
        LegGrows(e.graph, e1.graph, path, from, pickup);
        AssignKeeps(e1, cabId, pickup, path);
      }
    }
  }

  /** A shortest walk found before the lookup added isolated nodes is still a leg to the pickup. */
  lemma LegGrows(g: Graph, g2: Graph, path: seq<int>, from: int, pickup: int)
    requires ShortestWalk(g, path, from, pickup) && Extends(g, g2)
    ensures ArrivesAt(g2, path, pickup)
  {
    var d :| Walk(g, path, from, pickup, d) && IsShortest(g, from, pickup, d);
    ExtendsEdges(g, g2);
    ArrivesAtGrows(g, g2, path, pickup);
  }

  /** Releasing a cab without a ride keeps the invariant. */
  lemma ReleasedKeeps(e: Engine, e2: Engine, cabId: int)
    requires EngineInv(e) && cabId in e.cabs && Idle(e, cabId) && Released(e, e2, cabId)
    ensures EngineInv(e2)
  {
    if e.rideQueue == [] {
      SetAvailableKeeps(e, cabId, true);
    } else {
      var e1 := e.(rideQueue := e.rideQueue[1..]);
      forall n | n in e1.activeRides ensures ActiveOk(e1, n) {
        assert ActiveOk(e, n);
      }
      forall i | 0 <= i < |e1.completedRides| ensures CompletedOk(e1, i) {
        assert CompletedOk(e, i);
      }
      OfferedKeeps(e1, e2, cabId, e.rideQueue[0]);
    }
  }

  /** Ending a ride along a walk from its pickup keeps the invariant and leaves its cab without a ride. */
  lemma FinishKeeps(e: Engine, rideId: int, drop: int, dist: nat, path: seq<int>)
    requires EngineInv(e) && rideId in e.activeRides
    requires Walk(e.graph, path, e.activeRides[rideId].pickup, drop, dist)
    ensures e.activeRides[rideId].cabId in e.cabs
    ensures EngineInv(Finish(e, rideId, drop, dist, path))
    ensures Idle(Finish(e, rideId, drop, dist, path), e.activeRides[rideId].cabId)
  {
    assert ActiveOk(e, rideId);
    var r := e.activeRides[rideId];
    var e2 := Finish(e, rideId, drop, dist, path);
    forall n | n in e2.activeRides ensures ActiveOk(e2, n) && e2.activeRides[n].cabId != r.cabId {
      assert ActiveOk(e, n);
    }
    forall i | 0 <= i < |e2.completedRides| ensures CompletedOk(e2, i) {
      if i < |e.completedRides| {
        assert CompletedOk(e, i);
      }
    }
    forall i, j | 0 <= i < |e2.completedRides| && 0 <= j < |e2.completedRides| &&
        e2.completedRides[i].rideId == e2.completedRides[j].rideId
      ensures i == j
    {
      if i < |e.completedRides| {
        assert CompletedOk(e, i);
      }
      if j < |e.completedRides| {
        assert CompletedOk(e, j);
      }
    }
  }

  /** Canceling a ride keeps the invariant and leaves its cab without a ride. */
  lemma CancelKeeps(e: Engine, rideId: int)
    requires EngineInv(e) && rideId in e.activeRides
    ensures e.activeRides[rideId].cabId in e.cabs
    ensures EngineInv(Cancel(e, rideId))
    ensures Idle(Cancel(e, rideId), e.activeRides[rideId].cabId)
  {
    assert ActiveOk(e, rideId);
    var r := e.activeRides[rideId];
    var e2 := Cancel(e, rideId);
    forall n | n in e2.activeRides ensures ActiveOk(e2, n) && e2.activeRides[n].cabId != r.cabId {
      assert ActiveOk(e, n);
    }
    forall i | 0 <= i < |e2.completedRides| ensures CompletedOk(e2, i) {
      assert CompletedOk(e, i);
    }
  }

  /** Resetting availability keeps the invariant; completed rides and the next ride id survive. */
  lemma ResetKeeps(e: Engine)
    requires EngineInv(e)
    ensures EngineInv(Reset(e))
  {
    var e2 := Reset(e);
    forall i | 0 <= i < |e2.completedRides| ensures CompletedOk(e2, i) {
      assert CompletedOk(e, i);
    }
  }

  /** Adding a cab under a new id keeps the invariant. */
  lemma AddCabKeeps(e: Engine, id: int, driver: string, location: int)
    requires EngineInv(e) && id !in e.cabs
    ensures EngineInv(e.(cabs := e.cabs[id := Cab(id, driver, location, true)]))
  {
    var e2 := e.(cabs := e.cabs[id := Cab(id, driver, location, true)]);
    forall n | n in e2.activeRides ensures ActiveOk(e2, n) {
      assert ActiveOk(e, n);
    }
    forall i | 0 <= i < |e2.completedRides| ensures CompletedOk(e2, i) {
      assert CompletedOk(e, i);
    }
  }

  /**
    A freed cab that cannot reach the front of the backlog loses that pickup:
    it leaves the queue, no ride is opened, and the cab stays out of service
    with no ride. So an unavailable cab need not be on a ride.
   */
  lemma ReleaseStrands(e: Engine, e2: Engine, cabId: int)
    requires EngineInv(e) && cabId in e.cabs && Idle(e, cabId) && e.rideQueue != []
    requires !Reachable(e.graph, e.cabs[cabId].location, e.rideQueue[0])
    requires Released(e, e2, cabId)
    ensures e2.rideQueue == e.rideQueue[1..]
    ensures e2.activeRides == e.activeRides && e2.nextRideId == e.nextRideId
    ensures cabId in e2.cabs && !e2.cabs[cabId].available && Idle(e2, cabId)
  {
    assert e.rideQueue[0] in e.graph;
  }
}
