/**
 Two of the networks that `create` builds, as instances of what the algorithm asks for.
 */
module Topologies {
  import opened Paths
  import opened Dijkstra
  import opened RoutingPolicies
  import opened Delivery

  // The network that the single wires of a freshly created matrix describe.
  ghost function NetOf(adjacent: seq<Row>, crossLat: nat): Net
    requires forall i, j | 0 <= i < |adjacent| && 0 <= j < |adjacent[i]| :: |adjacent[i][j]| == 1
  {
    Net(|adjacent|, crossLat, seq(|adjacent|, i requires 0 <= i < |adjacent| =>
      seq(|adjacent[i]|, j requires 0 <= j < |adjacent[i]| => adjacent[i][j][0])))
  }

  ghost predicate Single(adjacent: seq<Row>, n: nat) {
    && |adjacent| == n && (forall i | 0 <= i < n :: |adjacent[i]| == n)
    && forall i, j | 0 <= i < n && 0 <= j < n :: |adjacent[i][j]| == 1
  }

  ghost predicate Unlinked(adjacent: seq<Row>, n: nat) {
    && Single(adjacent, n)
    && forall i, j | 0 <= i < n && 0 <= j < n :: adjacent[i][j] == [Wire(0, DISABLED_PORT, MAX_DIST)]
  }

  // Every entry off the diagonal is an absent link or a wire to its own column.
  ghost predicate Linkable(adjacent: seq<Row>, n: nat) {
    && Single(adjacent, n)
    && forall i, j | 0 <= i < n && 0 <= j < n && i != j ::
         var w := adjacent[i][j][0];
         1 <= w.dist <= MAX_DIST && (w.dist < MAX_DIST ==> w.rID == j && UP_PORT <= w.port < LOCAL_PORT1)
  }

  lemma LinkableIsValid(adjacent: seq<Row>, n: nat, crossLat: nat)
    requires Linkable(adjacent, n) && 0 < n && 1 <= crossLat
    ensures var g := NetOf(adjacent, crossLat);
            && g.n == n && g.crossLat == crossLat && ValidNet(g)
            && (forall i: nat, j: nat | i < n && j < n ::
                  Linked(g, i, j) <==> i != j && adjacent[i][j][0].dist < MAX_DIST)
            && (forall i: nat | i < n :: RowOpen(g, adjacent[i], i))
  {
    var g := NetOf(adjacent, crossLat);
    forall i: nat | i < n
      ensures forall j: nat | j < n :: adjacent[i][j] == [g.link[i][j]]
    {
    }
    forall i, j | 0 <= i < g.n && 0 <= j < g.n && i != j
      ensures ValidLink(g, i, j)
    {
      assert g.link[i][j] == adjacent[i][j][0];
    }
  }

  // The neighbour after i on the ring.
  function Succ(i: nat, n: nat): nat
    requires i < n
  {
    if i + 1 == n then 0 else i + 1
  }

  method SetLink(p: RoutingPolicy, from: nat, to: nat, port: nat, dist: nat)
    requires Single(p.adjacent, p.nRouters) && from < p.nRouters && to < p.nRouters
    modifies p
    ensures Single(p.adjacent, p.nRouters)
    ensures forall i: nat, j: nat | i < p.nRouters && j < p.nRouters ::
              p.adjacent[i][j][0] == if i == from && j == to then Wire(to, port, dist) else old(p.adjacent[i][j][0])
  {
    p.adjacent := p.adjacent[from := p.adjacent[from][to := [Wire(to, port, dist)]]];
  }

  const ABSENT := Wire(0, DISABLED_PORT, MAX_DIST)

  function UniLink(i: nat, j: nat, n: nat, wireLat: nat): Wire
    requires i < n
  {
    if j == Succ(i, n) then Wire(j, UP_PORT, wireLat) else ABSENT
  }

  function BiLink(i: nat, j: nat, n: nat, wireLat: nat): Wire
    requires i < n && j < n
  {
    if i == Succ(j, n) then Wire(j, DOWN_PORT, wireLat) else UniLink(i, j, n, wireLat)
  }

  method CreateUniRing(p: RoutingPolicy, wireLat: nat)
    requires Unlinked(p.adjacent, p.nRouters) && 1 <= wireLat < MAX_DIST
    modifies p
    ensures Linkable(p.adjacent, p.nRouters)
    ensures forall i: nat, j: nat | i < p.nRouters && j < p.nRouters ::
              p.adjacent[i][j][0] == UniLink(i, j, p.nRouters, wireLat)
  {
    var n := p.nRouters;
    for i := 0 to n
      invariant Single(p.adjacent, n)
      invariant forall x: nat, y: nat | x < n && y < n ::
                  p.adjacent[x][y][0] == if y < i then UniLink(x, y, n, wireLat) else ABSENT
    {
      var a := if i == 0 then n - 1 else i - 1;
      SetLink(p, a, i, UP_PORT, wireLat);
    }
  }

  method CreateBiRing(p: RoutingPolicy, wireLat: nat)
    requires Unlinked(p.adjacent, p.nRouters) && 1 <= wireLat < MAX_DIST
    modifies p
    ensures Linkable(p.adjacent, p.nRouters)
    ensures forall i: nat, j: nat | i < p.nRouters && j < p.nRouters ::
              p.adjacent[i][j][0] == BiLink(i, j, p.nRouters, wireLat)
  {
    CreateUniRing(p, wireLat);
    var n := p.nRouters;
    for i := 0 to n
      invariant Single(p.adjacent, n)
      invariant forall x: nat, y: nat | x < n && y < n ::
                  p.adjacent[x][y][0] == if y < i then BiLink(x, y, n, wireLat) else UniLink(x, y, n, wireLat)
    {
      var b := if i == n - 1 then 0 else i + 1;
      SetLink(p, b, i, DOWN_PORT, wireLat);
    }
  }

  // The operator that numbers the ports increments first, so that every router's first port is 1.
  function FullLink(i: nat, j: nat, wireLat: nat): Wire {
    if i == j then ABSENT else Wire(j, if j < i then j + 1 else j, wireLat)
  }

  // A link from every router to every other.  With more than a hundred routers, ports of links
  // meet those of local devices.
  method CreateFullyConnected(p: RoutingPolicy, wireLat: nat)
    requires Unlinked(p.adjacent, p.nRouters) && 1 <= wireLat < MAX_DIST
    modifies p
    ensures Single(p.adjacent, p.nRouters)
    ensures forall i: nat, j: nat | i < p.nRouters && j < p.nRouters :: p.adjacent[i][j][0] == FullLink(i, j, wireLat)
    ensures forall i: nat, j: nat | i < p.nRouters && j < p.nRouters && i != j ::
        p.adjacent[i][j][0].rID == j && p.adjacent[i][j][0].dist == wireLat
    ensures forall i: nat, j: nat | i < p.nRouters && j < p.nRouters && i != j ::
        p.adjacent[i][j][0].port == if j < i then j + 1 else j
    ensures Linkable(p.adjacent, p.nRouters) <==> p.nRouters <= LOCAL_PORT1
  {
    var n := p.nRouters;
    for i := 0 to n
      invariant Single(p.adjacent, n)
      invariant forall x: nat, y: nat | x < n && y < n ::
                  p.adjacent[x][y][0] == if x < i then FullLink(x, y, wireLat) else ABSENT
    {
      var last := 0;
      for j := 0 to n
        invariant Single(p.adjacent, n) && last == if j <= i then j else j - 1
        invariant forall x: nat, y: nat | x < n && y < n ::
                    p.adjacent[x][y][0] == if x < i || (x == i && y < j) then FullLink(x, y, wireLat) else ABSENT
      {
        if i != j {
          last := last + 1;
          SetLink(p, i, j, last, wireLat);
        }
      }
    }
    if LOCAL_PORT1 < n {
      assert p.adjacent[0][LOCAL_PORT1][0].port == LOCAL_PORT1;
    }
  }

  ghost predicate IsFull(g: Net, wireLat: nat)
    requires ValidNet(g)
  {
    && 1 <= wireLat < MAX_DIST
    && forall i: nat, j: nat | i < g.n && j < g.n && i != j :: g.link[i][j].dist == wireLat
  }

  // The direct link is the only shortest path.
  lemma FullIsDirect(g: Net, adjacent: seq<Row>, wireLat: nat, i: nat, j: nat)
    requires ValidNet(g) && IsFull(g, wireLat) && AllClosed(g, adjacent) && i < g.n && j < g.n && i != j
    ensures |adjacent[i]| == g.n && adjacent[i][j] != [] && Remaining(adjacent, i, j) == wireLat
    ensures forall w | w in adjacent[i][j] :: w.rID == j
  {
    ClosedDistance(g, adjacent, i, j);
    SingleLink(g, i, j);
    var d := Remaining(adjacent, i, j);
    var p :| Route(g, i, j, p) && Cost(g, p) == d;
    FullPath(g, wireLat, p);
    forall w | w in adjacent[i][j]
      ensures w.rID == j
    {
      assert RowClosed(g, adjacent[i], i);
      assert HopWire(g, i, j, w) && w.dist == d;
      var q :| Route(g, i, j, q) && Cost(g, q) == d && q[1] == w.rID;
      FullPath(g, wireLat, q);
    }
  }

  lemma FullPath(g: Net, wireLat: nat, p: seq<nat>)
    requires ValidNet(g) && IsFull(g, wireLat) && IsPath(g, p)
    ensures Cost(g, p) >= wireLat && (Cost(g, p) == wireLat ==> |p| == 2)
  {
    if |p| > 2 {
      CostPositive(g, p[..|p| - 1]);
    }
  }

  // One router per hop, one crossbar in between.
  function RingCost(wireLat: nat, crossLat: nat, hops: nat): nat
    requires 0 < hops
  {
    if hops == 1 then wireLat else RingCost(wireLat, crossLat, hops - 1) + crossLat + wireLat
  }

  function Ahead(i: nat, j: nat, n: nat): nat
    requires i < n && j < n && i != j
  {
    if j > i then j - i else j + n - i
  }

  ghost predicate IsUniRing(g: Net, wireLat: nat)
    requires ValidNet(g)
  {
    forall i: nat, j: nat | i < g.n && j < g.n && i != j ::
      && g.link[i][j].dist == (if j == Succ(i, g.n) then wireLat else MAX_DIST)
      && (j == Succ(i, g.n) ==> g.link[i][j].port == UP_PORT)
  }

  // On the ring a path has no choice but its length.
  lemma {:induction false} RingPath(g: Net, wireLat: nat, p: seq<nat>)
    requires ValidNet(g) && 1 <= wireLat < MAX_DIST && IsUniRing(g, wireLat) && IsPath(g, p)
    ensures p[0] < g.n && p[|p| - 1] < g.n
    ensures Cost(g, p) == RingCost(wireLat, g.crossLat, |p| - 1)
    ensures p[0] != p[|p| - 1] ==> Ahead(p[0], p[|p| - 1], g.n) <= |p| - 1
    decreases |p|
  {
    if 2 < |p| {
      RingPath(g, wireLat, p[..|p| - 1]);
    }
  }

  lemma {:induction false} RingCostGrows(wireLat: nat, crossLat: nat, a: nat, b: nat)
    requires 0 < a <= b
    ensures RingCost(wireLat, crossLat, a) <= RingCost(wireLat, crossLat, b)
    decreases b
  {
    if a < b {
      RingCostGrows(wireLat, crossLat, a, b - 1);
    }
  }

  lemma {:induction false} RingWalk(g: Net, wireLat: nat, i: nat, j: nat) returns (p: seq<nat>)
    requires ValidNet(g) && 1 <= wireLat < MAX_DIST && IsUniRing(g, wireLat)
    requires i < g.n && j < g.n && i != j
    ensures Route(g, i, j, p) && |p| == Ahead(i, j, g.n) + 1
    decreases Ahead(i, j, g.n)
  {
    if j == Succ(i, g.n) {
      p := [i, j];
    } else {
      var k := if j == 0 then g.n - 1 else j - 1;
      var q := RingWalk(g, wireLat, i, k);
      p := q + [j];
      assert p[..|p| - 1] == q;
    }
  }

  // What `make` computes for a ring, in closed form.
  lemma UniRingDistance(g: Net, wireLat: nat, i: nat, j: nat, d: nat)
    requires ValidNet(g) && 1 <= wireLat < MAX_DIST && IsUniRing(g, wireLat)
    requires i < g.n && j < g.n && i != j && IsDistance(g, i, j, d)
    ensures var c := RingCost(wireLat, g.crossLat, Ahead(i, j, g.n));
            d == if c < MAX_DIST then c else MAX_DIST
  {
    var h := Ahead(i, j, g.n);
    var p := RingWalk(g, wireLat, i, j);
    RingPath(g, wireLat, p);
    if d < MAX_DIST {
      var q :| Route(g, i, j, q) && Cost(g, q) == d;
      RingPath(g, wireLat, q);
      RingCostGrows(wireLat, g.crossLat, h, |q| - 1);
    }
  }
}
