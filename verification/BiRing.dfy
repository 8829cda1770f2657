/**
 The two-way ring: messages go the shorter way round, or either way if both are as long.
 */
module BiRings {
  import opened Paths
  import opened Dijkstra
  import opened RoutingPolicies
  import opened Delivery
  import opened Topologies
  import opened Networks

  // The neighbour before i on the ring.
  function Pred(i: nat, n: nat): nat
    requires i < n
  {
    if i == 0 then n - 1 else i - 1
  }

  // How far apart i and j are, the shorter way round.
  function Apart(i: nat, j: nat, n: nat): nat
    requires i < n && j < n
  {
    if i == j then 0 else if 2 * Ahead(i, j, n) <= n then Ahead(i, j, n) else n - Ahead(i, j, n)
  }

  ghost predicate IsBiRing(g: Net, wireLat: nat)
    requires ValidNet(g)
  {
    && 1 <= wireLat < MAX_DIST
    && forall i: nat, j: nat | i < g.n && j < g.n && i != j ::
         && g.link[i][j].dist == (if j == Pred(i, g.n) || j == Succ(i, g.n) then wireLat else MAX_DIST)
         && (j == Pred(i, g.n) ==> g.link[i][j].port == DOWN_PORT)
         && (j == Succ(i, g.n) && j != Pred(i, g.n) ==> g.link[i][j].port == UP_PORT)
  }

  // A path costs by its length, and is no shorter than the ends are apart.
  lemma {:induction false} BiPath(g: Net, wireLat: nat, p: seq<nat>)
    requires ValidNet(g) && IsBiRing(g, wireLat) && IsPath(g, p)
    ensures p[0] < g.n && p[|p| - 1] < g.n
    ensures Cost(g, p) == RingCost(wireLat, g.crossLat, |p| - 1) && Apart(p[0], p[|p| - 1], g.n) <= |p| - 1
    decreases |p|
  {
    if |p| > 2 {
      BiPath(g, wireLat, p[..|p| - 1]);
    }
  }

  // Going up while that is the shorter way, or down.
  lemma {:induction false} BiWalk(g: Net, wireLat: nat, i: nat, j: nat, up: bool) returns (p: seq<nat>)
    requires ValidNet(g) && IsBiRing(g, wireLat) && i < g.n && j < g.n && i != j
    requires if up then 2 * Ahead(i, j, g.n) <= g.n else g.n <= 2 * Ahead(i, j, g.n)
    ensures Route(g, i, j, p) && |p| == Apart(i, j, g.n) + 1
    ensures p[1] == if up then Succ(i, g.n) else Pred(i, g.n)
    decreases Apart(i, j, g.n)
  {
    var h := if up then Succ(i, g.n) else Pred(i, g.n);
    SingleLink(g, i, h);
    if h == j {
      p := [i, h];
    } else {
      var q := BiWalk(g, wireLat, h, j, up);
      CostJoin(g, [i, h], q);
      p := [i, h] + q[1..];
    }
  }

  lemma BiDistance(g: Net, wireLat: nat, i: nat, j: nat, e: nat)
    requires ValidNet(g) && IsBiRing(g, wireLat) && i < g.n && j < g.n && i != j && IsDistance(g, i, j, e)
    ensures 0 < Apart(i, j, g.n) && e == RingDistance(wireLat, g.crossLat, Apart(i, j, g.n))
  {
    hide Cost, IsPath, RingCost;
    var p := BiWalk(g, wireLat, i, j, 2 * Ahead(i, j, g.n) <= g.n);
    BiPath(g, wireLat, p);
    if e < MAX_DIST {
      var q :| Route(g, i, j, q) && Cost(g, q) == e;
      TwoOrMore(g, q);
      BiPath(g, wireLat, q);
      RingCostGrows(wireLat, g.crossLat, Apart(i, j, g.n), |q| - 1);
    }
  }

  lemma TwoOrMore(g: Net, p: seq<nat>)
    requires ValidNet(g) && IsPath(g, p)
    ensures 2 <= |p|
  {
  }

  // A neighbour starts a shortest path if and only if its way is not the longer one.
  lemma BiFirstHops(g: Net, wireLat: nat, i: nat, j: nat, up: bool)
    requires ValidNet(g) && IsBiRing(g, wireLat) && i < g.n && j < g.n && i != j
    ensures 0 < Apart(i, j, g.n)
    ensures FirstHop(g, i, j, RingCost(wireLat, g.crossLat, Apart(i, j, g.n)),
        if up then Succ(i, g.n) else Pred(i, g.n))
            <==> if g.n == 2 then true else if up then 2 * Ahead(i, j, g.n) <= g.n else g.n <= 2 * Ahead(i, j, g.n)
  {
    var e, h := RingCost(wireLat, g.crossLat, Apart(i, j, g.n)), if up then Succ(i, g.n) else Pred(i, g.n);
    if if up then 2 * Ahead(i, j, g.n) <= g.n else g.n <= 2 * Ahead(i, j, g.n) {
      var p := BiWalk(g, wireLat, i, j, up);
      BiPath(g, wireLat, p);
    } else if FirstHop(g, i, j, e, h) {
      var p :| Route(g, i, j, p) && Cost(g, p) == e && p[1] == h;
      ShortestWay(g, wireLat, p, up);
    }
  }

  lemma ShortestWay(g: Net, wireLat: nat, p: seq<nat>, up: bool)
    requires ValidNet(g) && IsBiRing(g, wireLat) && IsPath(g, p) && p[0] < g.n && p[|p| - 1] < g.n && p[0] != p[|p| - 1]
    requires var d := Apart(p[0], p[|p| - 1], g.n); 0 < d && Cost(g, p) == RingCost(wireLat, g.crossLat, d)
    requires p[1] == if up then Succ(p[0], g.n) else Pred(p[0], g.n)
    ensures var a := Ahead(p[0], p[|p| - 1], g.n); g.n == 2 || if up then 2 * a <= g.n else g.n <= 2 * a
  {
    hide Cost, IsPath, RingCost;
    TwoOrMore(g, p);
    BiPath(g, wireLat, p);
    SameHops(wireLat, g.crossLat, |p| - 1, Apart(p[0], p[|p| - 1], g.n));
    if |p| > 2 {
      PathSuffix(g, p);
      BiPath(g, wireLat, p[1..]);
    }
  }

  lemma SameHops(wireLat: nat, crossLat: nat, a: nat, b: nat)
    requires 0 < a && 0 < b && 1 <= wireLat
    ensures RingCost(wireLat, crossLat, a) == RingCost(wireLat, crossLat, b) ==> a == b
  {
    if a < b {
      RingCostGrows(wireLat, crossLat, a, b - 1);
    } else if b < a {
      RingCostGrows(wireLat, crossLat, b, a - 1);
    }
  }

  // Between reachable routers the wires kept: up if that way is not longer, and down if that one is not.
  ghost predicate BiEntry(ws: seq<Wire>, i: nat, j: nat, n: nat, e: nat)
    requires i < n && j < n && i != j
  {
    && (forall w | w in ws :: w == Wire(Succ(i, n), UP_PORT, e) || w == Wire(Pred(i, n), DOWN_PORT, e))
    && (Wire(Succ(i, n), UP_PORT, e) in ws <==> 2 < n && 2 * Ahead(i, j, n) <= n)
    && (Wire(Pred(i, n), DOWN_PORT, e) in ws <==> n == 2 || n <= 2 * Ahead(i, j, n))
  }

  lemma BiWires(g: Net, wireLat: nat, i: nat, j: nat, ws: seq<Wire>)
    requires ValidNet(g) && IsBiRing(g, wireLat) && i < g.n && j < g.n && i != j && Exact(g, i, j, ws)
    requires ws[0].dist < MAX_DIST
    ensures BiEntry(ws, i, j, g.n, ws[0].dist)
  {
    var e := ws[0].dist;
    ExactIsDistance(g, i, j, ws);
    BiDistance(g, wireLat, i, j, e);
    BiFirstHops(g, wireLat, i, j, true);
    BiFirstHops(g, wireLat, i, j, false);
    forall w | w in ws
      ensures HopWire(g, i, j, w) && w.dist == e && Linked(g, i, w.rID) && w.port == g.link[i][w.rID].port
    {
      assert HopWire(g, i, j, w);
      HopPort(g, i, j, w);
    }
    var up, down := Wire(Succ(i, g.n), UP_PORT, e), Wire(Pred(i, g.n), DOWN_PORT, e);
    assert g.n > 2 ==> (up in ws <==> FirstHop(g, i, j, e, Succ(i, g.n)));
    assert down in ws <==> FirstHop(g, i, j, e, Pred(i, g.n));
  }

  ghost predicate BiClosed(adjacent: seq<Row>, n: nat, wireLat: nat, crossLat: nat) {
    && |adjacent| == n && (forall i | 0 <= i < n :: |adjacent[i]| == n)
    && forall i: nat, j: nat | i < n && j < n && i != j :: BiPair(adjacent[i][j], i, j, n, wireLat, crossLat)
  }

  ghost predicate BiPair(ws: seq<Wire>, i: nat, j: nat, n: nat, wireLat: nat, crossLat: nat)
    requires i < n && j < n && i != j
  {
    && ws != [] && 0 < Apart(i, j, n) && ws[0].dist == RingDistance(wireLat, crossLat, Apart(i, j, n))
    && (ws[0].dist < MAX_DIST ==> BiEntry(ws, i, j, n, ws[0].dist))
  }

  // Creating a two-way ring and running the algorithm on it.
  method MakeBiRing(n: nat, wireLat: nat, crossLat: nat) returns (p: RoutingPolicy, ghost g: Net)
    requires 0 < n && 1 <= crossLat && 1 <= wireLat < MAX_DIST
    ensures ValidNet(g) && g.n == n && g.crossLat == crossLat && IsBiRing(g, wireLat)
    ensures AllClosed(g, p.adjacent) && BiClosed(p.adjacent, n, wireLat, crossLat)
  {
    p := new RoutingPolicy(n, crossLat);
    CreateBiRing(p, wireLat);
    LinkableIsValid(p.adjacent, n, crossLat);
    g := NetOf(p.adjacent, crossLat);
    LinksOfBiRing(p.adjacent, n, wireLat, crossLat);
    p.Make(g);
    assert AllClosed(g, p.adjacent);
    ClosedBiRing(g, p.adjacent, wireLat);
  }

  lemma LinksOfBiRing(adjacent: seq<Row>, n: nat, wireLat: nat, crossLat: nat)
    requires Linkable(adjacent, n) && 0 < n && 1 <= crossLat && 1 <= wireLat < MAX_DIST
    requires forall i: nat, j: nat | i < n && j < n :: adjacent[i][j][0] == BiLink(i, j, n, wireLat)
    requires ValidNet(NetOf(adjacent, crossLat))
    ensures IsBiRing(NetOf(adjacent, crossLat), wireLat)
  {
    var g := NetOf(adjacent, crossLat);
    forall i: nat, j: nat | i < g.n && j < g.n && i != j
      ensures g.link[i][j] == BiLink(i, j, n, wireLat)
    {
      assert g.link[i][j] == adjacent[i][j][0];
    }
  }

  lemma ClosedBiRing(g: Net, adjacent: seq<Row>, wireLat: nat)
    requires ValidNet(g) && IsBiRing(g, wireLat) && AllClosed(g, adjacent)
    ensures BiClosed(adjacent, g.n, wireLat, g.crossLat)
  {
    hide RowClosed, IsBiRing, IsDistance, BiEntry;
    forall i: nat | i < g.n
      ensures |adjacent[i]| == g.n
    {
      ClosedDistance(g, adjacent, i, i);
    }
    forall i: nat, j: nat | i < g.n && j < g.n && i != j
      ensures BiPair(adjacent[i][j], i, j, g.n, wireLat, g.crossLat)
    {
      ClosedBiPair(g, adjacent, wireLat, i, j);
    }
  }

  lemma ClosedBiPair(g: Net, adjacent: seq<Row>, wireLat: nat, i: nat, j: nat)
    requires ValidNet(g) && IsBiRing(g, wireLat) && AllClosed(g, adjacent) && i < g.n && j < g.n && i != j
    ensures |adjacent[i]| == g.n && BiPair(adjacent[i][j], i, j, g.n, wireLat, g.crossLat)
  {
    hide IsBiRing, IsDistance, BiEntry;
    ClosedDistance(g, adjacent, i, j);
    BiDistance(g, wireLat, i, j, adjacent[i][j][0].dist);
    assert RowClosed(g, adjacent[i], i);
    if adjacent[i][j][0].dist < MAX_DIST {
      BiWires(g, wireLat, i, j, adjacent[i][j]);
    }
  }
}
