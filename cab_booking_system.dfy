/**
  The dispatch engine: a fleet of cabs on a road network, rides booked to the
  nearest available cab, a first-in first-out backlog of pickups no cab could
  serve, and the ledger of active and completed rides. Each method updates the
  object's fields in place and is specified by the matching operation on
  `DispatchState.Engine` values.
 */
module CabBooking {
  import opened Wrappers
  import opened RoadNetwork
  import opened Selection
  import opened DispatchState

  /** A non-empty set has an element. */
  lemma Inhabited(s: set<int>)
    requires s != {}
    ensures exists x :: x in s
  {
    if forall x :: x !in s {
      assert false;
    }
  }

  /** The smallest of a non-empty set of ids: ordered maps are walked in ascending key order. */
  method LeastKey(ids: set<int>) returns (m: int)
    requires ids != {}
    ensures m in ids
    ensures forall k :: k in ids ==> m <= k
  {
    Inhabited(ids);
    var first :| first in ids;
    m := first;
    var rest := ids - {m};
    while rest != {}
      invariant rest <= ids && m in ids
      invariant forall k :: k in ids && k !in rest ==> m <= k
      decreases rest
    {
      Inhabited(rest);
      var k :| k in rest;
      if k < m {
        m := k;
      }
      rest := rest - {k};
    }
  }

  class CabBookingSystem {
    var cabs: map<int, Cab>
    var activeRides: map<int, Ride>
    var completedRides: seq<Ride>
    var graph: Graph
    var rideQueue: seq<int>
    var canceledCabs: set<int>
    var nextRideId: int

    /** The fields as one value. */
    ghost function State(): Engine
      reads this
    {
      Engine(cabs, activeRides, completedRides, graph, rideQueue, canceledCabs, nextRideId)
    }

    ghost predicate Valid()
      reads this
    {
      EngineInv(State())
    }

    /** An engine with no cabs, no roads and no rides; ride ids start at 1. */
    constructor()
      ensures Valid()
      ensures State() == Engine(map[], map[], [], map[], [], {}, 1)
    {
      cabs := map[];
      activeRides := map[];
      completedRides := [];
      graph := map[];
      rideQueue := [];
      canceledCabs := {};
      nextRideId := 1;
    }

    /**
      Every cab becomes available; active rides, the backlog and the canceled
      marks are dropped. Completed rides, the roads, the cabs' ids, drivers and
      locations and the next ride id stay.
     */
    method ResetAvailability()
      requires Valid()
      modifies this
      ensures Valid()
      ensures State() == Reset(old(State()))
    {
      ghost var e0 := State();
      var ids := cabs.Keys;
      while ids != {}
        modifies this`cabs
        invariant ids <= e0.cabs.Keys && cabs.Keys == e0.cabs.Keys
        invariant forall k :: k in cabs ==>
          cabs[k] == if k in ids then e0.cabs[k] else e0.cabs[k].(available := true)
        decreases ids
      {
        var id := LeastKey(ids);
        cabs := cabs[id := cabs[id].(available := true)];
        ids := ids - {id};
      }
      activeRides := map[];
      rideQueue := [];
      canceledCabs := {};
      forall k | k in cabs ensures cabs[k] == e0.cabs[k].(available := true) {
        assert k !in ids;
      }
      assert cabs == map k | k in e0.cabs :: e0.cabs[k].(available := true);
      ResetKeeps(e0);
    }

    /** A road of weight `w` both ways between `u` and `v`; parallel roads are kept. */
    method AddRoad(u: int, v: int, w: int)
      requires Valid() && w >= 0
      modifies this
      ensures Valid()
      ensures State() == old(State()).(graph := WithRoad(old(graph), u, v, w))
    {
      WithRoadKeepsInv(State(), u, v, w);
      graph := graph[u := Adj(graph, u) + [(v, w)]];
      graph := graph[v := Adj(graph, v) + [(u, w)]];
    }

    /**
      The engine's shortest-path query. The lookup of the roads of `src`
      inserts an unknown `src` as an isolated node; the answer is the one of
      the graph before that insertion.
     */
    method ShortestPath(src: int, dest: int) returns (r: Option<Route>)
      requires Valid() && dest in graph
      modifies this`graph
      ensures graph == WithNodes(old(graph), {src})
      ensures Valid()
      ensures r.None? <==> !Reachable(old(graph), src, dest)
      ensures r.Some? ==> Walk(old(graph), r.value.path, src, dest, r.value.dist)
      ensures r.Some? ==> IsShortest(old(graph), src, dest, r.value.dist)
      ensures src == dest ==> r == Some(Route(0, [src]))
    {
      ghost var g0 := graph;
      WithNodesKeeps(State(), {src});
      WithNodesExtends(graph, {src});
      graph := WithNodes(graph, {src});
      ExtendsEdges(g0, graph);
      r := Dijkstra(graph, src, dest);
      ExtendsShortest(g0, graph, src, dest);
    }

    /** Adds a cab, available at `location`, unless the id is taken. */
    method AddCab(id: int, driver: string, location: int) returns (added: bool)
      requires Valid()
      modifies this
      ensures Valid()
      ensures added <==> id !in old(cabs)
      ensures added ==> State() == old(State()).(cabs := old(cabs)[id := Cab(id, driver, location, true)])
      ensures !added ==> State() == old(State())
    {
      if id in cabs {
        return false;
      }
      AddCabKeeps(State(), id, driver, location);
      cabs := cabs[id := Cab(id, driver, location, true)];
      return true;
    }

    /** Opens ride `nextRideId` for cab `cabId` at `pickup` along `path`. */
    method StartRide(cabId: int, pickup: int, path: seq<int>)
      requires cabId in cabs && cabs[cabId].id == cabId
      modifies this
      ensures State() == Assign(old(State()), cabId, pickup, path)
    {
      var chosen := cabs[cabId];
      cabs := cabs[cabId := chosen.(available := false, location := pickup)];
      var thisRideId := nextRideId;
      nextRideId := nextRideId + 1;
      activeRides := activeRides[thisRideId := NewRide(thisRideId, chosen.id, pickup, path)];
      canceledCabs := canceledCabs - {chosen.id};
    }

    /**
      Offers the queued `pickup` to cab `cabId`, which has no ride. The cab is
      taken out of service before the route is known, so a cab that cannot
      reach the pickup is left out of service without a ride.
     */
    method AssignQueuedRideToCab(cabId: int, pickup: int)
      requires Valid() && cabId in cabs && Idle(State(), cabId)
      modifies this
      ensures Valid()
      ensures Offered(old(State()), State(), cabId, pickup)
    {
      if pickup !in graph {
        return;
      }
      ghost var e0 := State();
      SetAvailableKeeps(e0, cabId, false);
      cabs := cabs[cabId := cabs[cabId].(available := false)];
      var from := cabs[cabId].location;
      var route := ShortestPath(from, pickup);
      if route.None? {
        return;
      }
      ghost var e1 := State();
      StartRide(cabId, pickup, route.value.path);
      assert Walk(e0.graph, route.value.path, from, pickup, route.value.dist);
      assert activeRides[e0.nextRideId].path == route.value.path;
      assert State() == Assign(e0, cabId, pickup, route.value.path).(graph := e1.graph);
      OfferedKeeps(e0, State(), cabId, pickup);
    }

    /**
      The scan of a booking: every cab in ascending id order, and for each
      available one its shortest route to `pickup`, keeping the nearest, the
      lowest id among equally near ones. Each lookup adds the cab's location
      to the graph.
     */
    method ScanCabs(pickup: int) returns (best: Option<Offer>, ghost offers: seq<Offer>)
      requires Valid() && pickup in graph
      modifies this`graph
      ensures Valid()
      ensures graph == WithNodes(old(graph), AvailableAt(cabs, cabs.Keys))
      ensures Scanned(old(State()), pickup, cabs.Keys, offers, best)
    {
      ghost var e0 := State();
      best := None;
      offers := [];
      var remaining := cabs.Keys;
      ghost var seen: set<int> := {};
      ScanStarts(e0, pickup);
      while remaining != {}
        modifies this`graph
        invariant Valid()
        invariant remaining + seen == cabs.Keys && remaining !! seen
        invariant graph == WithNodes(e0.graph, AvailableAt(cabs, seen))
        invariant Scanned(e0, pickup, seen, offers, best)
        decreases remaining
      {
        var id := LeastKey(remaining);
        var c := cabs[id];
        if c.available {
          ghost var seenAt := AvailableAt(cabs, seen);
          WithNodesExtends(e0.graph, seenAt);
          ExtendsShortest(e0.graph, graph, c.location, pickup);
          var r := ShortestPath(c.location, pickup);
          WithNodesUnion(e0.graph, seenAt, {c.location});
          assert AvailableAt(cabs, seen + {id}) == seenAt + {c.location};
          if r.Some? {
            var o := Offer(id, r.value.dist, r.value.path);
            ScanTakes(e0, pickup, seen, offers, best, o);
            offers := offers + [o];
            best := Step(best, o);
          } else {
            ScanSkips(e0, pickup, seen, offers, best, id);
          }
        } else {
          ScanSkips(e0, pickup, seen, offers, best, id);
          assert AvailableAt(cabs, seen + {id}) == AvailableAt(cabs, seen);
        }
        remaining := remaining - {id};
        seen := seen + {id};
      }
    }

    /**
      Books the nearest available cab that can reach `pickup`, the lowest id
      among equally near ones, or queues the pickup when there is none;
      `chosen` is the winning offer.
     */
    method BookRide(pickup: int) returns (ghost chosen: Option<Offer>)
      requires Valid()
      modifies this
      ensures Valid()
      ensures pickup !in old(graph) ==> State() == old(State())
      ensures pickup in old(graph) ==> Booked(old(State()), State(), pickup, chosen)
    {
      if pickup !in graph {
        return None;
      }
      ghost var e0 := State();
      var best, offers := ScanCabs(pickup);
      ScanFinds(e0, pickup, offers, best);
      if best.None? {
        rideQueue := rideQueue + [pickup];
      } else {
        StartRide(best.value.id, pickup, best.value.path);
      }
      chosen := best;
      BookedKeeps(e0, State(), pickup, chosen);
    }

    /**
      A freed cab serves the oldest queued pickup if there is one, else it
      becomes available.
     */
    method ReleaseCab(cabId: int)
      requires Valid() && cabId in cabs && Idle(State(), cabId)
      modifies this
      ensures Valid()
      ensures Released(old(State()), State(), cabId)
    {
      if rideQueue != [] {
        ghost var e0 := State();
        var nextPickup := rideQueue[0];
        rideQueue := rideQueue[1..];
        assert EngineInv(State()) by {
          forall n | n in activeRides ensures ActiveOk(State(), n) {
            assert ActiveOk(e0, n);
          }
          forall i | 0 <= i < |completedRides| ensures CompletedOk(State(), i) {
            assert CompletedOk(e0, i);
          }
        }
        AssignQueuedRideToCab(cabId, nextPickup);
      } else {
        SetAvailableKeeps(State(), cabId, true);
        cabs := cabs[cabId := cabs[cabId].(available := true)];
      }
    }

    /**
      Ends ride `rideId` at `drop`. An unknown ride, an unknown drop or a drop
      the pickup cannot reach changes nothing. Otherwise the ride is completed
      with the shortest distance `dist` from its pickup, the fare for it and the
      path `path` (both reported back), its cab moves to the drop and is released.
     */
    method EndRide(rideId: int, drop: int) returns (dist: nat, path: seq<int>)
      requires Valid()
      modifies this
      ensures Valid()
      ensures rideId !in old(activeRides) || drop !in old(graph) ==> State() == old(State())
      ensures (rideId in old(activeRides) && drop in old(graph) &&
               !Reachable(old(graph), old(activeRides)[rideId].pickup, drop)) ==> State() == old(State())
      ensures (rideId in old(activeRides) && drop in old(graph) &&
               Reachable(old(graph), old(activeRides)[rideId].pickup, drop)) ==>
          && Walk(old(graph), path, old(activeRides)[rideId].pickup, drop, dist)
          && IsShortest(old(graph), old(activeRides)[rideId].pickup, drop, dist)
          && old(activeRides)[rideId].cabId in old(cabs)
          && Released(Finish(old(State()), rideId, drop, dist, path), State(),
                      old(activeRides)[rideId].cabId)
    {
      dist, path := 0, [];
      if rideId !in activeRides || drop !in graph {
        return;
      }
      ghost var e0 := State();
      var r := activeRides[rideId];
      assert ActiveOk(e0, rideId);
      WithNodesPresent(graph, {r.pickup});
      var route := ShortestPath(r.pickup, drop);
      if route.None? {
        return;
      }
      dist, path := route.value.dist, route.value.path;
      var fare := Fare(dist);
      FinishKeeps(e0, rideId, drop, dist, path);
      completedRides := completedRides +
        [r.(drop := drop, distance := dist, fare := fare, path := path, inProgress := false)];
      activeRides := activeRides - {rideId};
      var c := cabs[r.cabId];
      cabs := cabs[r.cabId := c.(location := drop)];
      assert State() == Finish(e0, rideId, drop, dist, path);
      ReleaseCab(c.id);
    }

    /**
      Cancels ride `rideId`: the ride is dropped without completing, its cab is
      marked as canceled and released. An unknown ride changes nothing.
     */
    method CancelRide(rideId: int)
      requires Valid()
      modifies this
      ensures Valid()
      ensures rideId !in old(activeRides) ==> State() == old(State())
      ensures rideId in old(activeRides) ==>
        && old(activeRides)[rideId].cabId in old(cabs)
        && Released(Cancel(old(State()), rideId), State(), old(activeRides)[rideId].cabId)
    {
      if rideId !in activeRides {
        return;
      }
      ghost var e0 := State();
      var r := activeRides[rideId];
      assert ActiveOk(e0, rideId);
      CancelKeeps(e0, rideId);
      activeRides := activeRides - {rideId};
      var c := cabs[r.cabId];
      canceledCabs := canceledCabs + {c.id};
      assert State() == Cancel(e0, rideId);
      ReleaseCab(c.id);
    }
  }
}
