/**
  The road network of the dispatch engine: an undirected weighted graph over
  integer node ids, kept as adjacency lists, and the single-source shortest
  path search the engine runs for every booking, ride end and backlog offer.
 */
module RoadNetwork {
  import opened Wrappers

  /** node -> its road ends, as (neighbour, weight) pairs in insertion order. */
  type Graph = map<int, seq<(int, int)>>

  /** A distance and the node path that realises it, first node to last. */
  datatype Route = Route(dist: nat, path: seq<int>)

  /** The adjacency list of `u`; an unknown node has none. */
  function Adj(g: Graph, u: int): seq<(int, int)> {
    if u in g then g[u] else []
  }

  /** `g` after lookups `graph[x]` for every `x` in `xs`: each unknown `x` becomes an isolated node. */
  function WithNodes(g: Graph, xs: set<int>): Graph {
    map x | x in g.Keys + xs :: Adj(g, x)
  }

  /** `g` after `addRoad(u, v, w)`: `(v, w)` appended to the roads of `u`, then `(u, w)` to those of `v`. */
  function WithRoad(g: Graph, u: int, v: int, w: int): Graph {
    var g1 := g[u := Adj(g, u) + [(v, w)]];
    g1[v := Adj(g1, v) + [(u, w)]]
  }

  /** A road of weight `w` leads from `a` to `b`. */
  ghost predicate Edge(g: Graph, a: int, b: int, w: int) {
    a in g && (b, w) in g[a]
  }

  /** Every road end leads to a node of the graph and has a non-negative weight. */
  ghost predicate WellFormed(g: Graph) {
    forall a, b, w :: Edge(g, a, b, w) ==> b in g && w >= 0
  }

  /** Every road can be driven both ways at the same weight. */
  ghost predicate Symmetric(g: Graph) {
    forall a, b, w :: Edge(g, a, b, w) ==> Edge(g, b, a, w)
  }

  /** `p` is a non-empty walk through nodes of `g` whose roads weigh `cost` in total. */
  ghost predicate IsWalk(g: Graph, p: seq<int>, cost: int)
    decreases |p|
  {
    && |p| >= 1 && p[0] in g
    && (|p| == 1 ==> cost == 0)
    && (|p| > 1 ==> exists w :: Edge(g, p[0], p[1], w) && IsWalk(g, p[1..], cost - w))
  }

  /** `p` is a walk from `s` to `t` of total weight `cost`. */
  ghost predicate Walk(g: Graph, p: seq<int>, s: int, t: int, cost: int) {
    |p| >= 1 && IsWalk(g, p, cost) && p[0] == s && p[|p| - 1] == t
  }

  ghost predicate Reachable(g: Graph, s: int, t: int) {
    exists p: seq<int>, c: int :: Walk(g, p, s, t, c)
  }

  /** `d` is the weight of a lightest walk from `s` to `t`. */
  ghost predicate IsShortest(g: Graph, s: int, t: int, d: int) {
    && (exists p :: Walk(g, p, s, t, d))
    && (forall p: seq<int>, c: int :: Walk(g, p, s, t, c) ==> d <= c)
  }

  /** `p` is a lightest walk from `s` to `t`. */
  ghost predicate ShortestWalk(g: Graph, p: seq<int>, s: int, t: int) {
    exists d :: Walk(g, p, s, t, d) && IsShortest(g, s, t, d)
  }

  /** `g2` is `g` plus isolated nodes only (what unknown-source lookups leave behind). */
  ghost predicate Extends(g: Graph, g2: Graph) {
    && (forall u :: u in g ==> u in g2)
    && (forall u :: u in g2 ==> g2[u] == Adj(g, u))
  }

  /** Every road of `g` is still a road of `g2` (roads are only ever added). */
  ghost predicate Grows(g: Graph, g2: Graph) {
    && g.Keys <= g2.Keys
    && (forall a, b, w :: Edge(g, a, b, w) ==> Edge(g2, a, b, w))
  }

  // ---------------------------------------------------------------------------
  // Changes to the graph
  // ---------------------------------------------------------------------------

  /** Lookups only add isolated nodes: the nodes grow by `xs`, and every old road list is kept. */
  lemma WithNodesExtends(g: Graph, xs: set<int>)
    ensures WithNodes(g, xs).Keys == g.Keys + xs
    ensures Extends(g, WithNodes(g, xs))
  {
  }

  /** Looking up nodes already present changes nothing. */
  lemma WithNodesPresent(g: Graph, xs: set<int>)
    requires xs <= g.Keys
    ensures WithNodes(g, xs) == g
  {
    assert WithNodes(g, xs).Keys == g.Keys;
  }

  /** Two rounds of lookups amount to one over both sets of nodes. */
  lemma WithNodesUnion(g: Graph, xs: set<int>, ys: set<int>)
    ensures WithNodes(WithNodes(g, xs), ys) == WithNodes(g, xs + ys)
  {
    var g1 := WithNodes(g, xs);
    forall x | x in g1.Keys + ys ensures Adj(g1, x) == Adj(g, x) {
    }
  }

  /** Adding isolated nodes keeps exactly the same roads. */
  lemma ExtendsEdges(g: Graph, g2: Graph)
    requires Extends(g, g2)
    ensures forall a, b, w :: Edge(g2, a, b, w) <==> Edge(g, a, b, w)
    ensures WellFormed(g) ==> WellFormed(g2)
    ensures Symmetric(g) ==> Symmetric(g2)
    ensures Grows(g, g2)
  {
    forall a, b, w ensures Edge(g2, a, b, w) <==> Edge(g, a, b, w) {
      if a in g2 {
        assert g2[a] == Adj(g, a);
      }
    }
    forall u | u in g.Keys ensures u in g2.Keys {
      assert u in g;
    }
  }

  /** A road added between `u` and `v`: the roads are the old ones plus `(u, v, w)` and `(v, u, w)`. */
  lemma WithRoadEdges(g: Graph, u: int, v: int, w: int)
    ensures WithRoad(g, u, v, w).Keys == g.Keys + {u, v}
    ensures forall a, b, x :: Edge(WithRoad(g, u, v, w), a, b, x) <==>
      Edge(g, a, b, x) || (a == u && b == v && x == w) || (a == v && b == u && x == w)
  {
    var g2 := WithRoad(g, u, v, w);
    forall a, b, x
      ensures Edge(g2, a, b, x) <==> Edge(g, a, b, x) || (a == u && b == v && x == w) || (a == v && b == u && x == w)
    {
      if a == u && a == v {
        assert g2[a] == Adj(g, a) + [(v, w)] + [(u, w)];
      } else if a == u {
        assert g2[a] == Adj(g, a) + [(v, w)];
      } else if a == v {
        assert g2[a] == Adj(g, a) + [(u, w)];
      } else if a in g2 {
        assert g2[a] == g[a];
      }
    }
  }

  /**
    `addRoad` appends, never replaces: a parallel road is kept beside the old
    one, and a loop road (`u == v`) is listed twice.
   */
  lemma WithRoadAppends(g: Graph, u: int, v: int, w: int)
    ensures u != v ==> Adj(WithRoad(g, u, v, w), u) == Adj(g, u) + [(v, w)]
    ensures u != v ==> Adj(WithRoad(g, u, v, w), v) == Adj(g, v) + [(u, w)]
    ensures u == v ==> Adj(WithRoad(g, u, v, w), u) == Adj(g, u) + [(v, w), (u, w)]
    ensures forall x :: x != u && x != v ==> Adj(WithRoad(g, u, v, w), x) == Adj(g, x)
  {
  }

  /** Adding a road of non-negative weight keeps the graph well formed, undirected and growing. */
  lemma WithRoadKeeps(g: Graph, u: int, v: int, w: int)
    requires w >= 0
    ensures WellFormed(g) ==> WellFormed(WithRoad(g, u, v, w))
    ensures Symmetric(g) ==> Symmetric(WithRoad(g, u, v, w))
    ensures Grows(g, WithRoad(g, u, v, w))
  {
    WithRoadEdges(g, u, v, w);
  }

  // ---------------------------------------------------------------------------
  // Facts about walks
  // ---------------------------------------------------------------------------

  /** The shortest distance between two nodes is unique. */
  lemma ShortestUnique(g: Graph, s: int, t: int, d1: int, d2: int)
    requires IsShortest(g, s, t, d1) && IsShortest(g, s, t, d2)
    ensures d1 == d2
  {
    var p1 :| Walk(g, p1, s, t, d1);
    var p2 :| Walk(g, p2, s, t, d2);
  }

  /** Adding isolated nodes neither creates nor destroys walks that end at an old node. */
  lemma {:induction false} ExtendsWalk(g: Graph, g2: Graph, p: seq<int>, c: int)
    requires Extends(g, g2)
    requires |p| >= 1 && p[|p| - 1] in g
    ensures IsWalk(g2, p, c) <==> IsWalk(g, p, c)
    decreases |p|
  {
    if |p| > 1 {
      if p[0] in g {
        forall w | Edge(g, p[0], p[1], w)
          ensures IsWalk(g2, p[1..], c - w) <==> IsWalk(g, p[1..], c - w)
        {
          ExtendsWalk(g, g2, p[1..], c - w);
        }
        assert forall w :: Edge(g2, p[0], p[1], w) <==> Edge(g, p[0], p[1], w);
      } else if p[0] in g2 {
        assert g2[p[0]] == Adj(g, p[0]) == [];
        assert forall w :: !Edge(g2, p[0], p[1], w);
      }
    }
  }

  /** Reachability and shortest distances to an old node survive adding isolated nodes. */
  lemma ExtendsShortest(g: Graph, g2: Graph, s: int, t: int)
    requires Extends(g, g2) && t in g
    ensures forall p: seq<int>, c: int :: Walk(g2, p, s, t, c) <==> Walk(g, p, s, t, c)
    ensures Reachable(g2, s, t) <==> Reachable(g, s, t)
    ensures forall d :: IsShortest(g2, s, t, d) <==> IsShortest(g, s, t, d)
    ensures forall p :: ShortestWalk(g2, p, s, t) <==> ShortestWalk(g, p, s, t)
  {
    forall p, c ensures Walk(g2, p, s, t, c) <==> Walk(g, p, s, t, c) {
      if |p| >= 1 && p[|p| - 1] == t {
        ExtendsWalk(g, g2, p, c);
      }
    }
  }

  /** A walk stays a walk when roads are added. */
  lemma {:induction false} GrowsWalk(g: Graph, g2: Graph, p: seq<int>, c: int)
    requires Grows(g, g2) && IsWalk(g, p, c)
    ensures IsWalk(g2, p, c)
    decreases |p|
  {
    if |p| > 1 {
      var w :| Edge(g, p[0], p[1], w) && IsWalk(g, p[1..], c - w);
      GrowsWalk(g, g2, p[1..], c - w);
    }
  }

  /** A walk extended by one road at its end. */
  lemma {:induction false} WalkSnoc(g: Graph, p: seq<int>, c: int, x: int, w: int)
    requires WellFormed(g) && IsWalk(g, p, c) && Edge(g, p[|p| - 1], x, w)
    ensures IsWalk(g, p + [x], c + w)
    decreases |p|
  {
    if |p| == 1 {
      assert IsWalk(g, [x], 0);
      assert (p + [x])[1..] == [x];
    } else {
      var w0 :| Edge(g, p[0], p[1], w0) && IsWalk(g, p[1..], c - w0);
      WalkSnoc(g, p[1..], c - w0, x, w);
      assert (p + [x])[1..] == p[1..] + [x];
    }
  }

  function Reverse(p: seq<int>): (r: seq<int>)
    ensures |r| == |p|
    ensures forall i :: 0 <= i < |p| ==> r[i] == p[|p| - 1 - i]
  {
    if p == [] then [] else Reverse(p[1..]) + [p[0]]
  }

  /** In a graph whose roads run both ways, a walk read backwards is a walk of the same weight. */
  lemma {:induction false} WalkReverse(g: Graph, p: seq<int>, c: int)
    requires WellFormed(g) && Symmetric(g) && IsWalk(g, p, c)
    ensures IsWalk(g, Reverse(p), c)
    decreases |p|
  {
    if |p| == 1 {
      assert Reverse(p) == p;
    } else {
      var w :| Edge(g, p[0], p[1], w) && IsWalk(g, p[1..], c - w);
      WalkReverse(g, p[1..], c - w);
      assert Edge(g, p[1], p[0], w);
      WalkSnoc(g, Reverse(p[1..]), c - w, p[0], w);
    }
  }

  /** Shortest distances are symmetric: the engine's graph has undirected roads. */
  lemma ShortestSymmetric(g: Graph, a: int, b: int, d: int)
    requires WellFormed(g) && Symmetric(g) && IsShortest(g, a, b, d)
    ensures IsShortest(g, b, a, d)
  {
    var p :| Walk(g, p, a, b, d);
    WalkReverse(g, p, d);
    assert Walk(g, Reverse(p), b, a, d);
    forall q, c | Walk(g, q, b, a, c) ensures d <= c {
      WalkReverse(g, q, c);
      assert Walk(g, Reverse(q), a, b, c);
    }
  }

  /**
    Once every road out of every reached node has been relaxed, the recorded
    distances bound the weight of every walk that starts at a reached node.
   */
  lemma {:induction false} ClosedDistances(g: Graph, dist: map<int, nat>, p: seq<int>, c: int)
    requires Closed(g, dist)
    requires IsWalk(g, p, c) && p[0] in dist
    ensures p[|p| - 1] in dist && dist[p[|p| - 1]] <= dist[p[0]] + c
    decreases |p|
  {
    if |p| > 1 {
      var w: int :| Edge(g, p[0], p[1], w) && IsWalk(g, p[1..], c - w);
      assert p[1] in dist && dist[p[1]] <= dist[p[0]] + w;
      ClosedDistances(g, dist, p[1..], c - w);
    }
  }

  /** Distances closed under roads: following a road never beats the recorded distance. */
  ghost predicate Closed(g: Graph, dist: map<int, nat>) {
    forall x, y, w: int :: x in dist && Edge(g, x, y, w) ==> y in dist && dist[y] <= dist[x] + w
  }

  /** With closed distances and the source at 0, an unreached node has no walk from the source. */
  lemma ClosedUnreachable(g: Graph, dist: map<int, nat>, src: int, dest: int)
    requires Closed(g, dist) && src in dist && dest !in dist
    ensures !Reachable(g, src, dest)
  {
    forall p: seq<int>, c: int | Walk(g, p, src, dest, c) ensures false {
      ClosedDistances(g, dist, p, c);
    }
  }

  /** With closed distances and the source at 0, a walk weighing the recorded distance is a lightest one. */
  lemma ClosedShortest(g: Graph, dist: map<int, nat>, src: int, dest: int, path: seq<int>)
    requires Closed(g, dist) && src in dist && dist[src] == 0 && dest in dist
    requires Walk(g, path, src, dest, dist[dest])
    ensures IsShortest(g, src, dest, dist[dest])
  {
    forall p: seq<int>, c: int | Walk(g, p, src, dest, c) ensures dist[dest] <= c {
      ClosedDistances(g, dist, p, c);
      assert p[0] == src && p[|p| - 1] == dest;
    }
  }

  // ---------------------------------------------------------------------------
  // Dijkstra
  // ---------------------------------------------------------------------------

  /** The order of the search frontier: by distance, then by node id, as pairs compare. */
  predicate EntryLe(a: (nat, int), b: (nat, int)) {
    a.0 < b.0 || (a.0 == b.0 && a.1 <= b.1)
  }

  /** The top of the min-priority queue of (distance, node) pairs. */
  method ExtractMin(pq: set<(nat, int)>) returns (m: (nat, int))
    requires pq != {}
    ensures m in pq
    ensures forall e :: e in pq ==> EntryLe(m, e)
  {
    m :| m in pq;
    var rest := pq - {m};
    while rest != {}
      invariant rest <= pq && m in pq
      invariant forall e :: e in pq && e !in rest ==> EntryLe(m, e)
      decreases rest
    {
      var x :| x in rest;
      if !EntryLe(m, x) {
        m := x;
      }
      rest := rest - {x};
    }
  }

  /*
    State of the search. `dist` holds the reached nodes only (an absent node is
    at the source's infinity sentinel); `pq` is the frontier of pushed
    (distance, node) pairs; `done` is the ghost set of nodes whose roads have
    been relaxed and `rank` the order in which that happened.
   */

  /** Frontier bookkeeping: every reached node is finished or waits in the frontier at its distance. */
  ghost predicate Frontier(g: Graph, dist: map<int, nat>, pq: set<(nat, int)>, done: set<int>) {
    && (forall v :: v in dist ==> v in g)
    && done <= dist.Keys
    && (forall e :: e in pq ==> e.1 in dist && dist[e.1] <= e.0)
    && (forall v :: v in dist ==> v in done || (dist[v], v) in pq)
    && (forall e :: e in pq && e.1 in done ==> dist[e.1] < e.0)
  }

  /** Predecessor links: each reached node other than `src` hangs off a finished node by a road. */
  ghost predicate PrevLinks(g: Graph, src: int, dist: map<int, nat>, prev: map<int, int>,
                            done: set<int>, rank: map<int, nat>) {
    && src in dist && dist[src] == 0
    && done <= dist.Keys
    && rank.Keys == done
    && (forall v {:trigger prev[v]} :: v in prev ==>
          v in dist && prev[v] in done && Edge(g, prev[v], v, dist[v] as int - dist[prev[v]]))
    && (forall v :: v in dist && v != src ==> v in prev)
    && (forall v {:trigger prev[v]} :: v in prev && v in done ==> rank[prev[v]] < rank[v])
  }

  /** Every road out of `x` leads to a reached node no farther than through `x`. */
  ghost predicate AllRoadsRelaxed(g: Graph, dist: map<int, nat>, x: int) {
    x in g && RoadsRelaxed(g, dist, x, |g[x]|)
  }

  /** The first `n` roads out of `x` lead to reached nodes no farther than through `x`. */
  ghost predicate RoadsRelaxed(g: Graph, dist: map<int, nat>, x: int, n: int) {
    x in g && x in dist && n <= |g[x]| &&
    forall j :: 0 <= j < n ==> g[x][j].0 in dist && dist[g[x][j].0] <= dist[x] + g[x][j].1
  }

  /** Once every reached node is finished with all its roads relaxed, the distances are closed. */
  lemma RelaxedClosed(g: Graph, dist: map<int, nat>, done: set<int>)
    requires forall v :: v in dist ==> v in done
    requires forall x :: x in done ==> AllRoadsRelaxed(g, dist, x)
    ensures Closed(g, dist)
  {
    forall x, y, w: int | x in dist && Edge(g, x, y, w)
      ensures y in dist && dist[y] <= dist[x] + w
    {
      var j :| 0 <= j < |g[x]| && g[x][j] == (y, w);
      assert AllRoadsRelaxed(g, dist, x);
    }
  }

  /** Lowering the distances of other nodes keeps the roads of `x` relaxed. */
  lemma RelaxedMonotone(g: Graph, dist: map<int, nat>, dist2: map<int, nat>, x: int, n: int)
    requires RoadsRelaxed(g, dist, x, n)
    requires x in dist2 && dist2[x] == dist[x]
    requires forall y :: y in dist ==> y in dist2 && dist2[y] <= dist[y]
    ensures RoadsRelaxed(g, dist2, x, n)
  {
    forall j | 0 <= j < n
      ensures g[x][j].0 in dist2 && dist2[g[x][j].0] <= dist2[x] + g[x][j].1
    {
      var y := g[x][j].0;
      assert y in dist && dist[y] <= dist[x] + g[x][j].1;
      assert y in dist2 && dist2[y] <= dist[y];
    }
  }

  /**
    Invariant of the relaxation loop over the roads of `u`, taken from the
    frontier at distance `d`, after its first `k` roads; `dist0` is the
    distance map before the loop.
   */
  ghost predicate RelaxInv(g: Graph, src: int, u: int, d: nat, k: int, dist0: map<int, nat>,
                           dist: map<int, nat>, prev: map<int, int>, pq: set<(nat, int)>,
                           done: set<int>, rank: map<int, nat>) {
    && WellFormed(g) && u in g && 0 <= k <= |g[u]|
    && u in done && u in dist0 && dist0[u] == d
    && (forall x :: x in done ==> x in dist0 && dist0[x] <= d)
    && Frontier(g, dist, pq, done) && PrevLinks(g, src, dist, prev, done, rank)
    && (forall x :: x in done ==> x in dist && dist[x] == dist0[x])
    && (forall e :: e in pq ==> d <= e.0)
    && (forall x :: x in done && x != u ==> AllRoadsRelaxed(g, dist, x))
    && RoadsRelaxed(g, dist, u, k)
  }

  /** Recording an improved distance for `v`, not yet finished, keeps the frontier bookkeeping. */
  lemma FrontierImproves(g: Graph, dist: map<int, nat>, pq: set<(nat, int)>, done: set<int>,
                         v: int, n: nat)
    requires Frontier(g, dist, pq, done) && v in g && v !in done
    requires v !in dist || dist[v] > n
    ensures Frontier(g, dist[v := n], pq + {(n, v)}, done)
  {
  }

  /** Hanging `v`, not yet finished, off the finished node `u` by a road of weight `w` keeps the links. */
  lemma PrevLinksImproves(g: Graph, src: int, dist: map<int, nat>, prev: map<int, int>,
                          done: set<int>, rank: map<int, nat>, u: int, v: int, w: nat)
    requires PrevLinks(g, src, dist, prev, done, rank)
    requires u in done && v !in done && v != src && Edge(g, u, v, w)
    requires v !in dist || dist[v] > dist[u] + w
    ensures PrevLinks(g, src, dist[v := dist[u] + w], prev[v := u], done, rank)
  {
    var dist2, prev2 := dist[v := dist[u] + w], prev[v := u];
    LinksRealised(g, src, dist, prev, done, rank, u, v, w, dist2, prev2);
    forall y | y in dist2 && y != src ensures y in prev2 {
      if y != v {
        assert y in dist;
      }
    }
    forall y | y in prev2 && y in done ensures rank[prev2[y]] < rank[y] {
      assert y != v && prev2[y] == prev[y];
    }
  }

  /** After hanging `v` off `u`, every predecessor link is still a road weighing the gap between the distances. */
  lemma LinksRealised(g: Graph, src: int, dist: map<int, nat>, prev: map<int, int>, done: set<int>,
                      rank: map<int, nat>, u: int, v: int, w: nat, dist2: map<int, nat>, prev2: map<int, int>)
    requires PrevLinks(g, src, dist, prev, done, rank)
    requires u in done && v !in done && Edge(g, u, v, w)
    requires dist2 == dist[v := dist[u] + w] && prev2 == prev[v := u]
    ensures forall y {:trigger prev2[y]} :: y in prev2 ==>
      y in dist2 && prev2[y] in done && Edge(g, prev2[y], y, dist2[y] as int - dist2[prev2[y]])
  {
    forall y | y in prev2
      ensures y in dist2 && prev2[y] in done && Edge(g, prev2[y], y, dist2[y] as int - dist2[prev2[y]])
    {
      if y == v {
        assert prev2[y] == u && dist2[u] == dist[u];
        assert dist2[y] as int - dist2[u] == w;
      } else {
        assert prev2[y] == prev[y] && prev[y] in done;
        assert prev[y] != v && dist2[prev[y]] == dist[prev[y]] && dist2[y] == dist[y];
      }
    }
  }

  /** Lowering the distance of `v`, not yet finished, through road `k` of `u` keeps the finished roads relaxed. */
  lemma RoadsImproves(g: Graph, u: int, d: nat, k: int, dist: map<int, nat>, done: set<int>,
                      v: int, w: nat)
    requires u in done && u in g && u in dist && dist[u] == d && v !in done && v != u
    requires 0 <= k < |g[u]| && g[u][k] == (v, w)
    requires v !in dist || dist[v] > d + w
    requires forall x :: x in done && x != u ==> AllRoadsRelaxed(g, dist, x)
    requires RoadsRelaxed(g, dist, u, k)
    ensures forall x :: x in done && x != u ==> AllRoadsRelaxed(g, dist[v := d + w], x)
    ensures RoadsRelaxed(g, dist[v := d + w], u, k + 1)
  {
    var dist2 := dist[v := d + w];
    forall x | x in done && x != u
      ensures AllRoadsRelaxed(g, dist2, x)
    {
      RelaxedMonotone(g, dist, dist2, x, |g[x]|);
    }
    RelaxedMonotone(g, dist, dist2, u, k);
  }

  /** Road `k` of `u` improves the distance of its far end: the frontier takes the new entry. */
  lemma RelaxFrontier(g: Graph, src: int, u: int, d: nat, k: int, dist0: map<int, nat>,
                      dist: map<int, nat>, prev: map<int, int>, pq: set<(nat, int)>,
                      done: set<int>, rank: map<int, nat>, v: int, w: nat)
    requires RelaxInv(g, src, u, d, k, dist0, dist, prev, pq, done, rank)
    requires k < |g[u]| && g[u][k] == (v, w)
    requires v !in dist || dist[v] > d + w
    ensures Frontier(g, dist[v := d + w], pq + {(d + w, v)}, done)
  {
    assert Edge(g, u, v, w);
    assert v in g && v !in done;
    FrontierImproves(g, dist, pq, done, v, d + w);
  }

  /** Road `k` of `u` improves the distance of its far end: `v` now hangs off `u`. */
  lemma RelaxPrevLinks(g: Graph, src: int, u: int, d: nat, k: int, dist0: map<int, nat>,
                       dist: map<int, nat>, prev: map<int, int>, pq: set<(nat, int)>,
                       done: set<int>, rank: map<int, nat>, v: int, w: nat)
    requires RelaxInv(g, src, u, d, k, dist0, dist, prev, pq, done, rank)
    requires k < |g[u]| && g[u][k] == (v, w)
    requires v !in dist || dist[v] > d + w
    ensures PrevLinks(g, src, dist[v := d + w], prev[v := u], done, rank)
  {
    assert Edge(g, u, v, w);
    Unfinished(dist, dist0, done, src, v, d, d + w);
    PrevLinksImproves(g, src, dist, prev, done, rank, u, v, w);
  }

  /** A node whose distance improves to `n`, beyond every finished distance, is neither finished nor the source. */
  lemma Unfinished(dist: map<int, nat>, dist0: map<int, nat>, done: set<int>, src: int, v: int, d: nat, n: nat)
    requires forall x :: x in done ==> x in dist0 && dist0[x] <= d
    requires forall x :: x in done ==> x in dist && dist[x] == dist0[x]
    requires src in dist && dist[src] == 0 && d <= n
    requires v !in dist || dist[v] > n
    ensures v !in done && v != src
  {
  }

  /** Road `k` of `u` improves the distance of its far end: finished nodes and relaxed roads stay so. */
  lemma RelaxRoadsKept(g: Graph, src: int, u: int, d: nat, k: int, dist0: map<int, nat>,
                       dist: map<int, nat>, prev: map<int, int>, pq: set<(nat, int)>,
                       done: set<int>, rank: map<int, nat>, v: int, w: nat)
    requires RelaxInv(g, src, u, d, k, dist0, dist, prev, pq, done, rank)
    requires k < |g[u]| && g[u][k] == (v, w)
    requires v !in dist || dist[v] > d + w
    ensures forall x :: x in done ==> x in dist[v := d + w] && dist[v := d + w][x] == dist0[x]
    ensures forall e :: e in pq + {(d + w, v)} ==> d <= e.0
    ensures forall x :: x in done && x != u ==> AllRoadsRelaxed(g, dist[v := d + w], x)
    ensures RoadsRelaxed(g, dist[v := d + w], u, k + 1)
  {
    assert Edge(g, u, v, w);
    assert v !in done && v != u;
    RoadsImproves(g, u, d, k, dist, done, v, w);
  }

  /** The relaxation invariant from its parts. */
  lemma RelaxInvIntro(g: Graph, src: int, u: int, d: nat, k: int, dist0: map<int, nat>,
                      dist: map<int, nat>, prev: map<int, int>, pq: set<(nat, int)>,
                      done: set<int>, rank: map<int, nat>)
    requires WellFormed(g) && u in g && 0 <= k <= |g[u]|
    requires u in done && u in dist0 && dist0[u] == d
    requires forall x :: x in done ==> x in dist0 && dist0[x] <= d
    requires Frontier(g, dist, pq, done) && PrevLinks(g, src, dist, prev, done, rank)
    requires forall x :: x in done ==> x in dist && dist[x] == dist0[x]
    requires forall e :: e in pq ==> d <= e.0
    requires forall x :: x in done && x != u ==> AllRoadsRelaxed(g, dist, x)
    requires RoadsRelaxed(g, dist, u, k)
    ensures RelaxInv(g, src, u, d, k, dist0, dist, prev, pq, done, rank)
  {
  }

  /** Road `k` of `u` improves the distance of its far end: record it. */
  lemma RelaxImproves(g: Graph, src: int, u: int, d: nat, k: int, dist0: map<int, nat>,
                      dist: map<int, nat>, prev: map<int, int>, pq: set<(nat, int)>,
                      done: set<int>, rank: map<int, nat>, v: int, w: nat)
    requires RelaxInv(g, src, u, d, k, dist0, dist, prev, pq, done, rank)
    requires k < |g[u]| && g[u][k] == (v, w)
    requires v !in dist || dist[v] > d + w
    ensures RelaxInv(g, src, u, d, k + 1, dist0, dist[v := d + w], prev[v := u],
                     pq + {(d + w, v)}, done, rank)
  {
    RelaxFrontier(g, src, u, d, k, dist0, dist, prev, pq, done, rank, v, w);
    RelaxPrevLinks(g, src, u, d, k, dist0, dist, prev, pq, done, rank, v, w);
    RelaxRoadsKept(g, src, u, d, k, dist0, dist, prev, pq, done, rank, v, w);
    RelaxInvIntro(g, src, u, d, k + 1, dist0, dist[v := d + w], prev[v := u], pq + {(d + w, v)}, done, rank);
  }

  /** Road `k` of `u` does not improve the distance of its far end. */
  lemma RelaxKeeps(g: Graph, src: int, u: int, d: nat, k: int, dist0: map<int, nat>,
                   dist: map<int, nat>, prev: map<int, int>, pq: set<(nat, int)>,
                   done: set<int>, rank: map<int, nat>, v: int, w: int)
    requires RelaxInv(g, src, u, d, k, dist0, dist, prev, pq, done, rank)
    requires k < |g[u]| && g[u][k] == (v, w)
    requires v in dist && dist[v] <= d + w
    ensures RelaxInv(g, src, u, d, k + 1, dist0, dist, prev, pq, done, rank)
  {
  }

  /** Road `k` of a node of a well-formed graph weighs at least zero and leads into the graph. */
  lemma RoadWeight(g: Graph, u: int, k: int)
    requires WellFormed(g) && u in g && 0 <= k < |g[u]|
    ensures g[u][k].1 >= 0 && g[u][k].0 in g
  {
    assert Edge(g, u, g[u][k].0, g[u][k].1);
  }

  /** Relaxes road `k` out of `u`: a strictly shorter way to its far end is recorded and queued. */
  method RelaxRoad(g: Graph, src: int, u: int, d: nat, k: int, dist0: map<int, nat>,
                   dist: map<int, nat>, prev: map<int, int>, pq: set<(nat, int)>,
                   ghost done: set<int>, ghost rank: map<int, nat>)
    returns (dist': map<int, nat>, prev': map<int, int>, pq': set<(nat, int)>)
    requires RelaxInv(g, src, u, d, k, dist0, dist, prev, pq, done, rank) && k < |g[u]|
    ensures RelaxInv(g, src, u, d, k + 1, dist0, dist', prev', pq', done, rank)
  {
    var v, w := g[u][k].0, g[u][k].1;
    RoadWeight(g, u, k);
    if v !in dist || dist[v] > d + w {
      RelaxImproves(g, src, u, d, k, dist0, dist, prev, pq, done, rank, v, w);
      dist', prev', pq' := dist[v := d + w], prev[v := u], pq + {(d + w, v)};
    } else {
      RelaxKeeps(g, src, u, d, k, dist0, dist, prev, pq, done, rank, v, w);
      dist', prev', pq' := dist, prev, pq;
    }
  }

  /** Relaxes every road out of `u`, the node just taken from the frontier at distance `d`. */
  method RelaxRoads(g: Graph, src: int, u: int, d: nat,
                    dist0: map<int, nat>, prev0: map<int, int>, pq0: set<(nat, int)>,
                    ghost done: set<int>, ghost rank: map<int, nat>)
    returns (dist: map<int, nat>, prev: map<int, int>, pq: set<(nat, int)>)
    requires RelaxInv(g, src, u, d, 0, dist0, dist0, prev0, pq0, done, rank)
    ensures RelaxInv(g, src, u, d, |g[u]|, dist0, dist, prev, pq, done, rank)
  {
    dist, prev, pq := dist0, prev0, pq0;
    var n := |g[u]|;
    var k := 0;
    while k < n
      invariant 0 <= k <= n
      invariant RelaxInv(g, src, u, d, k, dist0, dist, prev, pq, done, rank)
    {
      dist, prev, pq := RelaxRoad(g, src, u, d, k, dist0, dist, prev, pq, done, rank);
      k := k + 1;
    }
  }

  /**
    Invariant of the main search loop: `floor` is the key most recently taken
    from the frontier (keys taken never decrease) and `step` counts the nodes
    finished so far.
   */
  ghost predicate SearchInv(g: Graph, src: int, dist: map<int, nat>, prev: map<int, int>,
                            pq: set<(nat, int)>, done: set<int>, rank: map<int, nat>,
                            step: nat, floor: nat) {
    && WellFormed(g)
    && Frontier(g, dist, pq, done) && PrevLinks(g, src, dist, prev, done, rank)
    && (forall x :: x in done ==> dist[x] <= floor)
    && (forall e :: e in pq ==> floor <= e.0)
    && (forall x :: x in done ==> AllRoadsRelaxed(g, dist, x))
    && (forall x :: x in done ==> rank[x] < step)
  }

  /** At the start only the source is reached, at distance 0, waiting in the frontier. */
  lemma SearchStarts(g: Graph, src: int)
    requires WellFormed(g) && src in g
    ensures SearchInv(g, src, map[src := 0], map[], {(0, src)}, {}, map[], 0, 0)
  {
  }

  /** Dropping a stale frontier entry, one above its node's distance, keeps the search invariant. */
  lemma SkipStale(g: Graph, src: int, dist: map<int, nat>, prev: map<int, int>,
                  pq: set<(nat, int)>, done: set<int>, rank: map<int, nat>,
                  step: nat, floor: nat, e: (nat, int))
    requires SearchInv(g, src, dist, prev, pq, done, rank, step, floor)
    requires e in pq && e.1 in dist && e.0 > dist[e.1]
    ensures SearchInv(g, src, dist, prev, pq - {e}, done, rank, step, floor)
  {
  }

  /** Taking the least frontier entry at its node's own distance starts the node's relaxation. */
  lemma StartExpand(g: Graph, src: int, dist: map<int, nat>, prev: map<int, int>,
                    pq: set<(nat, int)>, done: set<int>, rank: map<int, nat>,
                    step: nat, floor: nat, e: (nat, int))
    requires SearchInv(g, src, dist, prev, pq, done, rank, step, floor)
    requires e in pq && (forall x :: x in pq ==> EntryLe(e, x))
    requires e.1 in dist && e.0 <= dist[e.1]
    ensures e.1 in g && e.1 !in done
    ensures RelaxInv(g, src, e.1, e.0, 0, dist, dist, prev, pq - {e},
                     done + {e.1}, rank[e.1 := step])
  {
    var d, u := e.0, e.1;
    assert dist[u] == d;
    var done2, rank2 := done + {u}, rank[u := step];
    forall x | x in done2 && x != u ensures AllRoadsRelaxed(g, dist, x) {
      assert x in done;
    }
    forall v | v in prev && v in done2 ensures rank2[prev[v]] < rank2[v] {
      assert prev[v] in done;
      if v != u {
        assert rank[prev[v]] < rank[v];
      }
    }
    assert PrevLinks(g, src, dist, prev, done2, rank2);
    assert Frontier(g, dist, pq - {e}, done2);
  }

  /** A node whose roads are all relaxed joins the finished nodes, and the search invariant holds again. */
  lemma FinishExpand(g: Graph, src: int, u: int, d: nat, dist0: map<int, nat>,
                     dist: map<int, nat>, prev: map<int, int>, pq: set<(nat, int)>,
                     done: set<int>, rank: map<int, nat>, step: nat)
    requires u in g
    requires RelaxInv(g, src, u, d, |g[u]|, dist0, dist, prev, pq, done, rank)
    requires forall x :: x in done ==> rank[x] <= step
    ensures SearchInv(g, src, dist, prev, pq, done, rank, step + 1, d)
  {
    assert AllRoadsRelaxed(g, dist, u);
  }

  /** A road followed by a walk is a walk. */
  lemma WalkCons(g: Graph, a: int, p: seq<int>, c: int, w: int)
    requires |p| >= 1 && Edge(g, a, p[0], w) && IsWalk(g, p, c)
    ensures IsWalk(g, [a] + p, c + w)
  {
    assert ([a] + p)[1..] == p;
  }

  /** Follows the predecessor links back from `dest`; the path is built front to back. */
  method TracePath(g: Graph, src: int, dest: int, dist: map<int, nat>, prev: map<int, int>,
                   ghost done: set<int>, ghost rank: map<int, nat>)
    returns (path: seq<int>)
    requires WellFormed(g)
    requires PrevLinks(g, src, dist, prev, done, rank)
    requires forall v :: v in dist ==> v in g && v in done
    requires dest in dist
    ensures Walk(g, path, src, dest, dist[dest])
    ensures src == dest ==> path == [src]
  {
    path := [];
    var at := dest;
    while at != src
      invariant at in dist
      invariant IsWalk(g, [at] + path, dist[dest] as int - dist[at])
      invariant ([at] + path)[|path|] == dest
      invariant at == dest ==> path == []
      decreases rank[at]
    {
      var before := prev[at];
      var tail := [at] + path;
      WalkCons(g, before, tail, dist[dest] as int - dist[at], dist[at] as int - dist[before]);
      path := tail;
      at := before;
    }
    path := [src] + path;
  }

  /**
    The search proper: repeatedly takes the least (distance, node) pair off the
    frontier, skips it when stale and otherwise relaxes the node's roads, until
    the frontier is empty. On return every reached node is finished and the
    distances are closed under roads.
   */
  method Search(g: Graph, src: int)
    returns (dist: map<int, nat>, prev: map<int, int>, ghost done: set<int>, ghost rank: map<int, nat>)
    requires WellFormed(g) && src in g
    ensures PrevLinks(g, src, dist, prev, done, rank)
    ensures forall v :: v in dist ==> v in g && v in done
    ensures Closed(g, dist)
  {
    dist := map[src := 0];
    prev := map[];
    var pq: set<(nat, int)> := {(0, src)};
    done := {};
    rank := map[];
    ghost var step: nat := 0;
    // The key most recently taken from the frontier: keys taken never decrease.
    ghost var floor: nat := 0;
    SearchStarts(g, src);

    while pq != {}
      invariant SearchInv(g, src, dist, prev, pq, done, rank, step, floor)
      decreases g.Keys - done, pq
    {
      var e := ExtractMin(pq);
      var d, u := e.0, e.1;
      if d > dist[u] {
        SkipStale(g, src, dist, prev, pq, done, rank, step, floor, e);
        pq := pq - {e};
        continue;
      }
      StartExpand(g, src, dist, prev, pq, done, rank, step, floor, e);
      pq := pq - {e};
      ghost var dist0 := dist;
      done := done + {u};
      rank := rank[u := step];
      dist, prev, pq := RelaxRoads(g, src, u, d, dist, prev, pq, done, rank);
      FinishExpand(g, src, u, d, dist0, dist, prev, pq, done, rank, step);
      step := step + 1;
      floor := d;
    }
    RelaxedClosed(g, dist, done);
  }

  /**
    Shortest path from `src` to `dest`. `None` stands for the source's -1
    ("never reached"); otherwise the route's path runs from `src` to `dest`
    along roads of the graph and weighs exactly the returned distance, which
    no other walk undercuts.
   */
  method Dijkstra(g: Graph, src: int, dest: int) returns (r: Option<Route>)
    requires WellFormed(g)
    requires src in g && dest in g
    ensures r.None? <==> !Reachable(g, src, dest)
    ensures r.Some? ==> Walk(g, r.value.path, src, dest, r.value.dist)
    ensures r.Some? ==> IsShortest(g, src, dest, r.value.dist)
    ensures src == dest ==> r == Some(Route(0, [src]))
  {
    var dist, prev, done, rank := Search(g, src);
    if dest !in dist {
      ClosedUnreachable(g, dist, src, dest);
      return None;
    }
    var path := TracePath(g, src, dest, dist, prev, done, rank);
    r := Some(Route(dist[dest], path));
    ClosedShortest(g, dist, src, dest, path);
  }
}
