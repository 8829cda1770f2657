/**
 The routing policy of the interconnection network: an in-place, multipath
 variant of Dijkstra's algorithm.

 `adjacent` is at once the weight matrix and the result.  Rows are closed in
 increasing order, so while row `s` is computed the rows below it already hold
 closed distances and the rows above it still hold single links.
 */
module Paths {
  const MAX_DIST: nat := 32767
  const DISABLED_PORT: nat := 0
  const UP_PORT: nat := 1
  const DOWN_PORT: nat := 2
  const LOCAL_PORT1: nat := 100

  // The next router, the local port that leads to it, and the distance to the destination.
  datatype Wire = Wire(rID: nat, port: nat, dist: nat)

  // One row of the matrix: the wires kept for every destination.
  type Row = seq<seq<Wire>>

  // The network as configured; an absent link has distance MAX_DIST.
  datatype Net = Net(n: nat, crossLat: nat, link: seq<seq<Wire>>)

  ghost predicate ValidNet(g: Net) {
    && 0 < g.n && 1 <= g.crossLat && |g.link| == g.n
    && (forall i | 0 <= i < g.n :: |g.link[i]| == g.n)
    && (forall i, j | 0 <= i < g.n && 0 <= j < g.n && i != j :: ValidLink(g, i, j))
  }

  ghost predicate ValidLink(g: Net, i: nat, j: nat)
    requires |g.link| == g.n && i < g.n && |g.link[i]| == g.n && j < g.n
  {
    var w := g.link[i][j];
    && 1 <= w.dist <= MAX_DIST
    && (w.dist < MAX_DIST ==> w.rID == j && UP_PORT <= w.port < LOCAL_PORT1)
  }

  ghost predicate Linked(g: Net, i: nat, j: nat)
    requires ValidNet(g)
  {
    i < g.n && j < g.n && i != j && g.link[i][j].dist < MAX_DIST
  }

  // A path visits at least two routers and follows links.
  ghost predicate IsPath(g: Net, p: seq<nat>)
    requires ValidNet(g)
  {
    && 2 <= |p| && Linked(g, p[|p| - 2], p[|p| - 1])
    && (2 < |p| ==> IsPath(g, p[..|p| - 1]))
  }

  ghost predicate Route(g: Net, i: nat, j: nat, p: seq<nat>)
    requires ValidNet(g)
  {
    IsPath(g, p) && p[0] == i && p[|p| - 1] == j
  }

  // The links of the path plus one crossbar latency per intermediate router.
  ghost function Cost(g: Net, p: seq<nat>): nat
    requires ValidNet(g) && IsPath(g, p)
  {
    var last := g.link[p[|p| - 2]][p[|p| - 1]].dist;
    if |p| == 2 then last else Cost(g, p[..|p| - 1]) + g.crossLat + last
  }

  ghost predicate AtLeast(g: Net, i: nat, j: nat, d: nat)
    requires ValidNet(g)
  {
    forall p | Route(g, i, j, p) :: d <= Cost(g, p)
  }

  ghost predicate Attained(g: Net, i: nat, j: nat, d: nat)
    requires ValidNet(g)
  {
    exists p :: Route(g, i, j, p) && Cost(g, p) == d
  }

  // d is the length of a shortest path from i to j, cut off at MAX_DIST.
  ghost predicate IsDistance(g: Net, i: nat, j: nat, d: nat)
    requires ValidNet(g)
  {
    d <= MAX_DIST && AtLeast(g, i, j, d) && (d < MAX_DIST ==> Attained(g, i, j, d))
  }

  // Router h starts some path of cost d from i to j.
  ghost predicate FirstHop(g: Net, i: nat, j: nat, d: nat, h: nat)
    requires ValidNet(g)
  {
    exists p :: Route(g, i, j, p) && Cost(g, p) == d && p[1] == h
  }

  lemma DistanceUnique(g: Net, i: nat, j: nat, d: nat, e: nat)
    requires ValidNet(g) && IsDistance(g, i, j, d) && IsDistance(g, i, j, e)
    ensures d == e
  {
    if d < MAX_DIST {
      var p :| Route(g, i, j, p) && Cost(g, p) == d;
    }
    if e < MAX_DIST {
      var p :| Route(g, i, j, p) && Cost(g, p) == e;
    }
  }

  lemma SingleLink(g: Net, i: nat, j: nat)
    requires ValidNet(g) && Linked(g, i, j)
    ensures Route(g, i, j, [i, j]) && Cost(g, [i, j]) == g.link[i][j].dist
  {
  }

  lemma CostPositive(g: Net, p: seq<nat>)
    requires ValidNet(g) && IsPath(g, p)
    ensures 1 <= Cost(g, p)
  {
    assert ValidLink(g, p[|p| - 2], p[|p| - 1]);
  }

  // Joining two paths at a router pays that router's crossbar once.
  lemma {:induction false} CostJoin(g: Net, p: seq<nat>, q: seq<nat>)
    requires ValidNet(g) && IsPath(g, p) && IsPath(g, q) && p[|p| - 1] == q[0]
    ensures IsPath(g, p + q[1..])
    ensures Cost(g, p + q[1..]) == Cost(g, p) + g.crossLat + Cost(g, q)
    decreases |q|
  {
    var r := p + q[1..];
    if |q| == 2 {
      assert r[..|r| - 1] == p;
    } else {
      var q' := q[..|q| - 1];
      CostJoin(g, p, q');
      assert r[..|r| - 1] == p + q'[1..];
    }
  }

  // A path is its first link followed by the rest.
  lemma {:induction false} PathSuffix(g: Net, p: seq<nat>)
    requires ValidNet(g) && IsPath(g, p) && 2 < |p|
    ensures Linked(g, p[0], p[1]) && IsPath(g, p[1..])
    ensures Cost(g, p) == g.link[p[0]][p[1]].dist + g.crossLat + Cost(g, p[1..])
    decreases |p|
  {
    var q, q' := p[1..], p[..|p| - 1];
    if |p| == 3 {
      assert q == [p[1], p[2]] && q' == [p[0], p[1]];
    } else {
      PathSuffix(g, q');
      assert q[..|q| - 1] == q'[1..];
    }
  }
}
