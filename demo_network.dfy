/**
  The road network the program builds at start-up: nodes 0 to 9, a road
  between every two of them weighing the difference of their numbers. On it
  the shortest distance between two nodes is that difference.
 */
module DemoNetwork {
  import opened RoadNetwork
  import opened Selection
  import opened DispatchState
  import opened CabBooking

  /** The weight of the road between `a` and `b`: the absolute difference. */
  function Gap(a: int, b: int): nat {
    if a <= b then b - a else a - b
  }

  /** The demo graph: the roads run both ways between every two distinct nodes of 0..9, weighing their gap. */
  ghost predicate DemoRoads(g: Graph) {
    forall a, b, w :: Edge(g, a, b, w) <==> 0 <= a <= 9 && 0 <= b <= 9 && a != b && w == Gap(a, b)
  }

  /** The pair `a < b` has been added when rows before `i`, and row `i` up to column `j`, are done. */
  predicate Added(a: int, b: int, i: int, j: int) {
    a < i || (a == i && b < j)
  }

  /** The demo graph while it is being built, row `i` done up to column `j`. */
  ghost predicate DemoRoadsUpTo(g: Graph, i: int, j: int) {
    forall a, b, w :: Edge(g, a, b, w) <==>
      && 0 <= a <= 9 && 0 <= b <= 9 && a != b && w == Gap(a, b)
      && (if a < b then Added(a, b, i, j) else Added(b, a, i, j))
  }

  /** The start-up loop over pairs `i < j` of nodes 0..9, adding a road of weight `j - i` for each. */
  method BuildDemoNetwork(sys: CabBookingSystem)
    requires sys.Valid() && sys.graph == map[]
    modifies sys
    ensures sys.Valid()
    ensures DemoRoads(sys.graph)
    ensures sys.State() == old(sys.State()).(graph := sys.graph)
  {
    var i := 0;
    while i <= 9
      invariant 0 <= i <= 10
      invariant sys.Valid()
      invariant sys.State() == old(sys.State()).(graph := sys.graph)
      invariant DemoRoadsUpTo(sys.graph, i, i + 1)
    {
      var j := i + 1;
      while j <= 9
        invariant i + 1 <= j <= 10
        invariant sys.Valid()
        invariant sys.State() == old(sys.State()).(graph := sys.graph)
        invariant DemoRoadsUpTo(sys.graph, i, j)
      {
        ghost var g := sys.graph;
        sys.AddRoad(i, j, Gap(i, j));
        WithRoadEdges(g, i, j, Gap(i, j));
        j := j + 1;
      }
      i := i + 1;
    }
  }

  /** On the demo graph no walk is shorter than the gap between its ends. */
  lemma {:induction false} DemoWalkBound(g: Graph, p: seq<int>, c: int)
    requires DemoRoads(g) && IsWalk(g, p, c)
    ensures c >= Gap(p[0], p[|p| - 1])
    decreases |p|
  {
    if |p| > 1 {
      var w :| Edge(g, p[0], p[1], w) && IsWalk(g, p[1..], c - w);
      DemoWalkBound(g, p[1..], c - w);
    }
  }

  /** On the demo graph the shortest distance between two nodes is the gap between them. */
  lemma DemoDistances(g: Graph, a: int, b: int)
    requires DemoRoads(g) && 0 <= a <= 9 && 0 <= b <= 9
    ensures IsShortest(g, a, b, Gap(a, b))
  {
    var other := if a == 0 then 1 else 0;
    assert Edge(g, a, other, Gap(a, other));
    if a == b {
      assert Walk(g, [a], a, b, 0);
    } else {
      assert Edge(g, a, b, Gap(a, b));
      assert Edge(g, b, a, Gap(a, b));
      assert IsWalk(g, [b], 0);
      assert [a, b][1..] == [b];
      assert IsWalk(g, [a, b][1..], Gap(a, b) - Gap(a, b));
      assert IsWalk(g, [a, b], Gap(a, b));
      assert Walk(g, [a, b], a, b, Gap(a, b));
    }
    forall p, c | Walk(g, p, a, b, c) ensures Gap(a, b) <= c {
      DemoWalkBound(g, p, c);
    }
  }

  /**
    A tie on the demo graph: cab 7 at node 2 and cab 3 at node 6 are both two
    units from a pickup at node 4, and the lower id, cab 3, wins.
   */
  lemma DemoTieBreak(e: Engine)
    requires DemoRoads(e.graph)
    requires e.cabs == map[7 := Cab(7, "Asha", 2, true), 3 := Cab(3, "Ravi", 6, true)]
    ensures Nearest(e, 4, Offer(3, 2, [6, 4]))
  {
    DemoDistances(e.graph, 6, 4);
    DemoDistances(e.graph, 2, 4);
    assert Edge(e.graph, 6, 4, 2) && Edge(e.graph, 4, 6, 2);
    assert IsWalk(e.graph, [4], 0);
    assert [6, 4][1..] == [4];
    assert IsWalk(e.graph, [6, 4], 2);
    forall k, d: nat | CanServe(e, 4, k, d)
      ensures NotAfter(Offer(3, 2, [6, 4]), Offer(k, d, []))
    {
      if k == 3 {
        ShortestUnique(e.graph, 6, 4, d, 2);
      } else {
        ShortestUnique(e.graph, 2, 4, d, 2);
      }
    }
  }
}
