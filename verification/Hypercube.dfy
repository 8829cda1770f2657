/**
 The hypercube: routers are numbered by the corners of a cube, links flip one bit of the number,
 and distances are Hamming distances.
 */
module Hypercubes {
  import opened Bits
  import opened Paths
  import opened Dijkstra
  import opened RoutingPolicies
  import opened Delivery
  import opened Topologies
  import opened Networks

  // The neighbour of i in dimension j.
  function Flip(i: nat, j: nat): nat {
    if j > 0 then 2 * Flip(i / 2, j - 1) + i % 2 else if i % 2 == 0 then i + 1 else i - 1
  }

  // In how many of the first d bits i and k differ.
  function Ham(i: nat, k: nat, d: nat): nat {
    if d == 0 then 0 else Ham(i / 2, k / 2, d - 1) + if i % 2 == k % 2 then 0 else 1
  }

  lemma {:induction false} FlipBelow(i: nat, j: nat, d: nat)
    requires i < Pow2(d) && j < d
    ensures Flip(i, j) < Pow2(d) && Flip(i, j) != i
  {
    if j > 0 {
      FlipBelow(i / 2, j - 1, d - 1);
    } else {
      assert Pow2(d) == 2 * Pow2(d - 1);
    }
  }

  // What the source computes with a mask.
  lemma {:induction false} FlipIsMasked(i: nat, j: nat)
    ensures And(i, Pow2(j)) != 0 <==> Bit(i, j)
    ensures Flip(i, j) == if Bit(i, j) then i - Pow2(j) else i + Pow2(j)
    ensures Bit(i, j) ==> Pow2(j) <= i
  {
    if j > 0 {
      FlipIsMasked(i / 2, j - 1);
      assert Pow2(j) / 2 == Pow2(j - 1) && Pow2(j) % 2 == 0;
    } else {
      AndZero(i / 2);
    }
  }

  lemma {:induction false} FlipInjective(i: nat, j: nat, k: nat)
    requires Flip(i, j) == Flip(i, k)
    ensures j == k
  {
    if j > 0 && k > 0 {
      FlipInjective(i / 2, j - 1, k - 1);
    }
  }

  // A flip brings i one closer to k if they differ there, and one farther off if not.
  lemma {:induction false} FlipHam(i: nat, j: nat, k: nat, d: nat)
    requires j < d
    ensures Ham(Flip(i, j), k, d) == if Bit(i, j) == Bit(k, j) then Ham(i, k, d) + 1 else Ham(i, k, d) - 1
  {
    if j > 0 {
      FlipHam(i / 2, j - 1, k / 2, d - 1);
    }
  }

  lemma {:induction false} HamSym(i: nat, k: nat, d: nat)
    ensures Ham(i, k, d) == Ham(k, i, d)
  {
    if d > 0 {
      HamSym(i / 2, k / 2, d - 1);
    }
  }

  lemma {:induction false} HamZero(i: nat, k: nat, d: nat)
    requires i < Pow2(d) && k < Pow2(d)
    ensures Ham(i, k, d) == 0 <==> i == k
  {
    if d > 0 {
      HamZero(i / 2, k / 2, d - 1);
    }
  }

  lemma {:induction false} SomeDiffers(i: nat, k: nat, d: nat) returns (j: nat)
    requires Ham(i, k, d) > 0
    ensures j < d && Bit(i, j) != Bit(k, j)
  {
    if i % 2 != k % 2 {
      j := 0;
    } else {
      j := SomeDiffers(i / 2, k / 2, d - 1);
      j := j + 1;
    }
  }

  // The dimension below m that leads from i to k, or -1.
  function DimOf(i: nat, k: nat, m: nat): (j: int)
    ensures -1 <= j < m && (j >= 0 ==> Flip(i, j) == k)
  {
    if m == 0 then -1 else if Flip(i, m - 1) == k then m - 1 else DimOf(i, k, m - 1)
  }

  lemma {:induction false} DimOfFlip(i: nat, j: nat, m: nat)
    requires j < m
    ensures DimOf(i, Flip(i, j), m) == j
  {
    if Flip(i, m - 1) == Flip(i, j) {
      FlipInjective(i, m - 1, j);
    } else {
      DimOfFlip(i, j, m - 1);
    }
  }

  function CubeLink(i: nat, k: nat, m: nat, wireLat: nat): Wire {
    if DimOf(i, k, m) >= 0 then Wire(k, DimOf(i, k, m) + 1, wireLat) else ABSENT
  }

  // As many dimensions as ports, and ports below those of the devices.
  method CreateHypercube(p: RoutingPolicy, nPorts: nat, wireLat: nat)
    requires Unlinked(p.adjacent, p.nRouters) && p.nRouters == Pow2(nPorts) && nPorts < LOCAL_PORT1 - 1
    requires 1 <= wireLat < MAX_DIST
    modifies p
    ensures Linkable(p.adjacent, p.nRouters)
    ensures forall i: nat, k: nat | i < p.nRouters && k < p.nRouters ::
              p.adjacent[i][k][0] == CubeLink(i, k, nPorts, wireLat)
  {
    var n := p.nRouters;
    for i := 0 to n
      invariant Single(p.adjacent, n)
      invariant forall x: nat, y: nat | x < n && y < n ::
                  p.adjacent[x][y][0] == if x < i then CubeLink(x, y, nPorts, wireLat) else ABSENT
    {
      for j := 0 to nPorts
        invariant Single(p.adjacent, n)
        invariant forall x: nat, y: nat | x < n && y < n ::
                    p.adjacent[x][y][0] == if x < i then CubeLink(x, y, nPorts, wireLat)
                                           else if x == i then CubeLink(x, y, j, wireLat) else ABSENT
      {
        var mask := Pow2(j);
        FlipIsMasked(i, j);
        FlipBelow(i, j, nPorts);
        var nbor := if And(i, mask) != 0 then i - mask else i + mask;
        SetLink(p, i, nbor, j + 1, wireLat);
      }
    }
  }

  ghost predicate IsCube(g: Net, d: nat, wireLat: nat)
    requires ValidNet(g)
  {
    && g.n == Pow2(d) && 1 <= wireLat < MAX_DIST
    && forall i: nat, k: nat | i < g.n && k < g.n && i != k :: g.link[i][k] == CubeLink(i, k, d, wireLat)
  }

  lemma CubeLinked(g: Net, d: nat, wireLat: nat, i: nat, j: nat)
    requires ValidNet(g) && IsCube(g, d, wireLat) && i < g.n && j < d
    ensures Linked(g, i, Flip(i, j)) && g.link[i][Flip(i, j)] == Wire(Flip(i, j), j + 1, wireLat)
  {
    FlipBelow(i, j, d);
    DimOfFlip(i, j, d);
  }

  lemma LinkedByFlip(g: Net, d: nat, wireLat: nat, i: nat, k: nat) returns (j: nat)
    requires ValidNet(g) && IsCube(g, d, wireLat) && Linked(g, i, k)
    ensures j < d && k == Flip(i, j) && g.link[i][k] == Wire(k, j + 1, wireLat)
  {
    j := DimOf(i, k, d);
  }

  // A path costs by its length, and is no shorter than the ends are apart.
  lemma {:induction false} CubePath(g: Net, d: nat, wireLat: nat, p: seq<nat>)
    requires ValidNet(g) && IsCube(g, d, wireLat) && IsPath(g, p)
    ensures p[0] < g.n && p[|p| - 1] < g.n
    ensures Cost(g, p) == RingCost(wireLat, g.crossLat, |p| - 1) && Ham(p[0], p[|p| - 1], d) <= |p| - 1
    decreases |p|
  {
    var y, x := p[|p| - 2], p[|p| - 1];
    var j := LinkedByFlip(g, d, wireLat, y, x);
    FlipHam(y, j, p[0], d);
    HamSym(x, p[0], d);
    HamSym(y, p[0], d);
    if |p| > 2 {
      CubePath(g, d, wireLat, p[..|p| - 1]);
    } else {
      HamZero(y, p[0], d);
    }
  }

  // Starting in any dimension in which i and k differ, one can go on to k without a detour.
  lemma {:induction false} CubeWalk(g: Net, d: nat, wireLat: nat, i: nat, k: nat, j: nat) returns (p: seq<nat>)
    requires ValidNet(g) && IsCube(g, d, wireLat) && i < g.n && k < g.n && j < d && Bit(i, j) != Bit(k, j)
    ensures Route(g, i, k, p) && |p| == Ham(i, k, d) + 1 && p[1] == Flip(i, j)
    decreases Ham(i, k, d)
  {
    var h := Flip(i, j);
    CubeLinked(g, d, wireLat, i, j);
    FlipHam(i, j, k, d);
    SingleLink(g, i, h);
    HamZero(h, k, d);
    if h == k {
      p := [i, h];
    } else {
      var j' := SomeDiffers(h, k, d);
      var q := CubeWalk(g, d, wireLat, h, k, j');
      CostJoin(g, [i, h], q);
      p := [i, h] + q[1..];
    }
  }

  lemma {:induction false} RingCostExact(wireLat: nat, crossLat: nat, a: nat, b: nat)
    requires 0 < a && 0 < b && 1 <= wireLat
    ensures RingCost(wireLat, crossLat, a) == RingCost(wireLat, crossLat, b) ==> a == b
  {
    if a < b {
      RingCostGrows(wireLat, crossLat, a, b - 1);
    } else if b < a {
      RingCostGrows(wireLat, crossLat, b, a - 1);
    }
  }

  // The distance of two corners depends on the Hamming distance of their numbers alone.
  lemma CubeDistance(g: Net, d: nat, wireLat: nat, i: nat, k: nat, e: nat)
    requires ValidNet(g) && IsCube(g, d, wireLat) && i < g.n && k < g.n && i != k && IsDistance(g, i, k, e)
    ensures 0 < Ham(i, k, d) && e == RingDistance(wireLat, g.crossLat, Ham(i, k, d))
  {
    hide Cost, IsPath, RingCost, IsCube;
    CubeSize(g, d, wireLat);
    HamZero(i, k, d);
    var j := SomeDiffers(i, k, d);
    var p := CubeWalk(g, d, wireLat, i, k, j);
    CubePath(g, d, wireLat, p);
    if e < MAX_DIST {
      var q :| Route(g, i, k, q) && Cost(g, q) == e;
      AtLeastTwo(g, q);
      CubePath(g, d, wireLat, q);
      RingCostGrows(wireLat, g.crossLat, Ham(i, k, d), |q| - 1);
    }
  }

  // The first hops of shortest paths are exactly the neighbours in the dimensions that differ.
  lemma CubeFirstHops(g: Net, d: nat, wireLat: nat, i: nat, k: nat, j: nat)
    requires ValidNet(g) && IsCube(g, d, wireLat) && i < g.n && k < g.n && i != k && j < d
    ensures 0 < Ham(i, k, d)
    ensures FirstHop(g, i, k, RingCost(wireLat, g.crossLat, Ham(i, k, d)), Flip(i, j)) <==> Bit(i, j) != Bit(k, j)
  {
    HamZero(i, k, d);
    var e, h := RingCost(wireLat, g.crossLat, Ham(i, k, d)), Flip(i, j);
    if Bit(i, j) != Bit(k, j) {
      var p := CubeWalk(g, d, wireLat, i, k, j);
      CubePath(g, d, wireLat, p);
    } else if FirstHop(g, i, k, e, h) {
      var p :| Route(g, i, k, p) && Cost(g, p) == e && p[1] == h;
      ShortestHop(g, d, wireLat, p, j);
    }
  }

  // A shortest path starts with a flip that brings it closer.
  lemma ShortestHop(g: Net, d: nat, wireLat: nat, p: seq<nat>, j: nat)
    requires ValidNet(g) && IsCube(g, d, wireLat) && IsPath(g, p) && j < d && p[1] == Flip(p[0], j)
    requires var h := Ham(p[0], p[|p| - 1], d); 0 < h && Cost(g, p) == RingCost(wireLat, g.crossLat, h)
    ensures Bit(p[0], j) != Bit(p[|p| - 1], j)
  {
    hide Cost, IsPath, RingCost;
    AtLeastTwo(g, p);
    var k := p[|p| - 1];
    CubePath(g, d, wireLat, p);
    RingCostExact(wireLat, g.crossLat, |p| - 1, Ham(p[0], k, d));
    FlipHam(p[0], j, k, d);
    if |p| > 2 {
      PathSuffix(g, p);
      CubePath(g, d, wireLat, p[1..]);
    } else {
      HamZero(p[1], k, d);
    }
  }

  lemma AtLeastTwo(g: Net, p: seq<nat>)
    requires ValidNet(g) && IsPath(g, p)
    ensures 2 <= |p|
  {
  }

  // Between reachable corners a closed row keeps just one wire for each dimension that differs.
  ghost predicate CubeEntry(ws: seq<Wire>, i: nat, k: nat, d: nat, e: nat) {
    && (forall w | w in ws :: w.dist == e && 1 <= w.port <= d && w.rID == Flip(i, w.port - 1))
    && forall j: nat | j < d :: Wire(Flip(i, j), j + 1, e) in ws <==> Bit(i, j) != Bit(k, j)
  }

  lemma CubeWires(g: Net, d: nat, wireLat: nat, i: nat, k: nat, ws: seq<Wire>)
    requires ValidNet(g) && IsCube(g, d, wireLat) && i < g.n && k < g.n && i != k && Exact(g, i, k, ws)
    requires ws[0].dist < MAX_DIST
    ensures CubeEntry(ws, i, k, d, ws[0].dist)
  {
    var e := ws[0].dist;
    ExactIsDistance(g, i, k, ws);
    CubeDistance(g, d, wireLat, i, k, e);
    forall w | w in ws
      ensures w.dist == e && 1 <= w.port <= d && w.rID == Flip(i, w.port - 1)
    {
      assert HopWire(g, i, k, w);
      HopPort(g, i, k, w);
      var j := LinkedByFlip(g, d, wireLat, i, w.rID);
    }
    forall j: nat | j < d
      ensures Wire(Flip(i, j), j + 1, e) in ws <==> Bit(i, j) != Bit(k, j)
    {
      CubeFirstHops(g, d, wireLat, i, k, j);
      CubeLinked(g, d, wireLat, i, j);
      if Wire(Flip(i, j), j + 1, e) in ws {
        assert HopWire(g, i, k, Wire(Flip(i, j), j + 1, e));
      }
    }
  }

  ghost predicate CubeClosed(adjacent: seq<Row>, d: nat, wireLat: nat, crossLat: nat) {
    && |adjacent| == Pow2(d) && (forall i | 0 <= i < |adjacent| :: |adjacent[i]| == |adjacent|)
    && forall i: nat, k: nat | i < |adjacent| && k < |adjacent| && i != k ::
         CubePair(adjacent[i][k], i, k, d, wireLat, crossLat)
  }

  ghost predicate CubePair(ws: seq<Wire>, i: nat, k: nat, d: nat, wireLat: nat, crossLat: nat) {
    && ws != [] && 0 < Ham(i, k, d) && ws[0].dist == RingDistance(wireLat, crossLat, Ham(i, k, d))
    && (ws[0].dist < MAX_DIST ==> CubeEntry(ws, i, k, d, ws[0].dist))
  }

  // Creating a hypercube and running the algorithm on it.
  method MakeHypercube(nPorts: nat, wireLat: nat, crossLat: nat) returns (p: RoutingPolicy, ghost g: Net)
    requires nPorts < LOCAL_PORT1 - 1 && 1 <= crossLat && 1 <= wireLat < MAX_DIST
    ensures ValidNet(g) && g.crossLat == crossLat && IsCube(g, nPorts, wireLat)
    ensures AllClosed(g, p.adjacent) && CubeClosed(p.adjacent, nPorts, wireLat, crossLat)
  {
    var n := Pow2(nPorts);
    p := new RoutingPolicy(n, crossLat);
    CreateHypercube(p, nPorts, wireLat);
    LinkableIsValid(p.adjacent, n, crossLat);
    g := NetOf(p.adjacent, crossLat);
    LinksOfCube(p.adjacent, nPorts, wireLat, crossLat);
    p.Make(g);
    assert AllClosed(g, p.adjacent);
    ClosedCube(g, p.adjacent, nPorts, wireLat);
  }

  lemma LinksOfCube(adjacent: seq<Row>, d: nat, wireLat: nat, crossLat: nat)
    requires Linkable(adjacent, Pow2(d)) && 1 <= crossLat && 1 <= wireLat < MAX_DIST
    requires forall i: nat, k: nat | i < Pow2(d) && k < Pow2(d) :: adjacent[i][k][0] == CubeLink(i, k, d, wireLat)
    requires ValidNet(NetOf(adjacent, crossLat))
    ensures IsCube(NetOf(adjacent, crossLat), d, wireLat)
  {
    var g := NetOf(adjacent, crossLat);
    forall i: nat, k: nat | i < g.n && k < g.n && i != k
      ensures g.link[i][k] == CubeLink(i, k, d, wireLat)
    {
      assert g.link[i][k] == adjacent[i][k][0];
    }
  }

  lemma ClosedCube(g: Net, adjacent: seq<Row>, d: nat, wireLat: nat)
    requires ValidNet(g) && IsCube(g, d, wireLat) && AllClosed(g, adjacent)
    ensures CubeClosed(adjacent, d, wireLat, g.crossLat)
  {
    hide RowClosed, IsCube, IsDistance, CubeEntry;
    assert g.n == Pow2(d) by {
      CubeSize(g, d, wireLat);
    }
    forall i: nat | i < g.n
      ensures |adjacent[i]| == g.n
    {
      ClosedDistance(g, adjacent, i, i);
    }
    forall i: nat, k: nat | i < g.n && k < g.n && i != k
      ensures CubePair(adjacent[i][k], i, k, d, wireLat, g.crossLat)
    {
      ClosedPair(g, adjacent, d, wireLat, i, k);
    }
  }

  lemma CubeSize(g: Net, d: nat, wireLat: nat)
    requires ValidNet(g) && IsCube(g, d, wireLat)
    ensures g.n == Pow2(d)
  {
  }

  lemma ClosedPair(g: Net, adjacent: seq<Row>, d: nat, wireLat: nat, i: nat, k: nat)
    requires ValidNet(g) && IsCube(g, d, wireLat) && AllClosed(g, adjacent) && i < g.n && k < g.n && i != k
    ensures |adjacent[i]| == g.n && CubePair(adjacent[i][k], i, k, d, wireLat, g.crossLat)
  {
    hide IsCube, IsDistance, CubeEntry;
    ClosedDistance(g, adjacent, i, k);
    CubeDistance(g, d, wireLat, i, k, adjacent[i][k][0].dist);
    assert RowClosed(g, adjacent[i], i);
    if adjacent[i][k][0].dist < MAX_DIST {
      CubeWires(g, d, wireLat, i, k, adjacent[i][k]);
    }
  }
}
