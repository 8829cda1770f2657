/**
 Hop-by-hop forwarding over closed distances: every run of hops, whichever of
 the equal-cost wires each router picks, is a shortest path and reaches its
 destination.
 */
module Delivery {
  import opened Paths
  import opened Dijkstra

  ghost predicate AllClosed(g: Net, adjacent: seq<Row>)
    requires ValidNet(g)
  {
    |adjacent| == g.n && forall i: nat | i < g.n :: RowClosed(g, adjacent[i], i)
  }

  // The wires a routing table keeps: some for every destination, none of its own making.
  ghost predicate Keeps(row: Row, kept: Row) {
    |kept| == |row| && forall j | 0 <= j < |row| :: kept[j] != [] && forall w | w in kept[j] :: w in row[j]
  }

  ghost predicate AllKept(adjacent: seq<Row>, kept: seq<Row>) {
    |kept| == |adjacent| && forall i | 0 <= i < |adjacent| :: Keeps(adjacent[i], kept[i])
  }

  function Remaining(adjacent: seq<Row>, i: nat, dst: nat): nat
    requires i < |adjacent| && dst < |adjacent[i]| && adjacent[i][dst] != []
  {
    adjacent[i][dst][0].dist
  }

  // Router i holds a message for dst and sends it over one of its kept wires to j.
  ghost predicate Hop(kept: seq<Row>, dst: nat, i: nat, j: nat) {
    i != dst && i < |kept| && dst < |kept[i]| && exists w :: w in kept[i][dst] && w.rID == j
  }

  // The routers a message visits, in order.
  ghost predicate IsRun(kept: seq<Row>, src: nat, dst: nat, r: seq<nat>) {
    && r != [] && r[0] == src
    && forall k: nat | k + 1 < |r| :: Hop(kept, dst, r[k], r[k + 1])
  }

  lemma ClosedDistance(g: Net, adjacent: seq<Row>, i: nat, j: nat)
    requires ValidNet(g) && AllClosed(g, adjacent) && i < g.n && j < g.n
    ensures |adjacent[i]| == g.n && adjacent[i][j] != []
    ensures i == j ==> Remaining(adjacent, i, j) == 0
    ensures i != j ==> IsDistance(g, i, j, Remaining(adjacent, i, j)) && 0 < Remaining(adjacent, i, j)
  {
    assert RowClosed(g, adjacent[i], i);
    if i != j {
      ExactIsDistance(g, i, j, adjacent[i][j]);
    }
  }

  // One hop pays its link, and its crossbar unless it arrives; the remaining distance drops by just that.
  lemma HopAdvances(g: Net, adjacent: seq<Row>, i: nat, dst: nat, w: Wire)
    requires ValidNet(g) && AllClosed(g, adjacent) && i < g.n && dst < g.n && i != dst
    requires |adjacent[i]| == g.n && adjacent[i][dst] != [] && Remaining(adjacent, i, dst) < MAX_DIST
    requires w in adjacent[i][dst]
    ensures Linked(g, i, w.rID) && w.port == g.link[i][w.rID].port
    ensures |adjacent[w.rID]| == g.n && adjacent[w.rID][dst] != []
    ensures Remaining(adjacent, w.rID, dst) < Remaining(adjacent, i, dst)
    ensures Remaining(adjacent, i, dst) ==
            g.link[i][w.rID].dist + if w.rID == dst then 0 else g.crossLat + Remaining(adjacent, w.rID, dst)
  {
    var d, h := Remaining(adjacent, i, dst), w.rID;
    assert RowClosed(g, adjacent[i], i);
    assert Exact(g, i, dst, adjacent[i][dst]);
    assert HopWire(g, i, dst, w);
    HopPort(g, i, dst, w);
    ClosedDistance(g, adjacent, h, dst);
    assert ValidLink(g, i, h);
    FirstHopSplits(g, i, dst, d, h, Remaining(adjacent, h, dst));
  }

  // The cut-off: another router counts as reachable exactly if some route costs less than MAX_DIST.
  lemma ReachableExactly(g: Net, adjacent: seq<Row>, i: nat, j: nat)
    requires ValidNet(g) && AllClosed(g, adjacent) && i < g.n && j < g.n && i != j
    ensures |adjacent[i]| == g.n && adjacent[i][j] != []
    ensures Remaining(adjacent, i, j) < MAX_DIST <==> exists p :: Route(g, i, j, p) && Cost(g, p) < MAX_DIST
  {
    ClosedDistance(g, adjacent, i, j);
  }

  // Bellman's equation at a first hop h: the rest of a shortest path is a shortest path.
  lemma FirstHopSplits(g: Net, i: nat, dst: nat, d: nat, h: nat, e: nat)
    requires ValidNet(g) && d < MAX_DIST && AtLeast(g, i, dst, d) && FirstHop(g, i, dst, d, h) && Linked(g, i, h)
    requires h != dst ==> IsDistance(g, h, dst, e)
    ensures d == g.link[i][h].dist + if h == dst then 0 else g.crossLat + e
  {
    var p :| Route(g, i, dst, p) && Cost(g, p) == d && p[1] == h;
    SingleLink(g, i, h);
    if h == dst {
      assert Route(g, i, dst, [i, h]);
      if 2 < |p| {
        PathSuffix(g, p);
      }
    } else {
      SplitBeyond(g, i, dst, d, p, e);
    }
  }

  lemma SplitBeyond(g: Net, i: nat, dst: nat, d: nat, p: seq<nat>, e: nat)
    requires ValidNet(g) && d < MAX_DIST && AtLeast(g, i, dst, d) && Route(g, i, dst, p) && Cost(g, p) == d
    requires p[1] != dst && Linked(g, i, p[1]) && IsDistance(g, p[1], dst, e)
    ensures d == g.link[i][p[1]].dist + g.crossLat + e
  {
    hide Cost, ValidLink;
    PathSuffix(g, p);
    assert Route(g, p[1], dst, p[1..]);
    var q :| Route(g, p[1], dst, q) && Cost(g, q) == e;
    SingleLink(g, i, p[1]);
    CostJoin(g, [i, p[1]], q);
    assert Route(g, i, dst, [i, p[1]] + q[1..]);
  }

  // Whatever the wires chosen, the part travelled and the part ahead make up one shortest path.
  lemma {:induction false} RunIsShortest(g: Net, adjacent: seq<Row>, kept: seq<Row>, src: nat, dst: nat, r: seq<nat>)
    requires ValidNet(g) && AllClosed(g, adjacent) && AllKept(adjacent, kept)
    requires src < g.n && dst < g.n && src != dst && IsRun(kept, src, dst, r)
    requires |adjacent[src]| == g.n && adjacent[src][dst] != [] && Remaining(adjacent, src, dst) < MAX_DIST
    ensures var at := r[|r| - 1];
            && at < g.n && |adjacent[at]| == g.n && adjacent[at][dst] != []
            && Remaining(adjacent, at, dst) + |r| - 1 <= Remaining(adjacent, src, dst)
            && (1 < |r| ==> (
              && IsPath(g, r)
              && Remaining(adjacent, src, dst) ==
                 Cost(g, r) + if at == dst then 0 else g.crossLat + Remaining(adjacent, at, dst)))
    decreases |r|
  {
    hide ValidLink, RowClosed;
    if 1 < |r| {
      var q := r[..|r| - 1];
      assert IsRun(kept, src, dst, q) by {
        forall k: nat | k + 1 < |q|
          ensures Hop(kept, dst, q[k], q[k + 1])
        {
          assert Hop(kept, dst, r[k], r[k + 1]);
        }
      }
      RunIsShortest(g, adjacent, kept, src, dst, q);
      var i, at := r[|r| - 2], r[|r| - 1];
      assert Hop(kept, dst, i, r[|r| - 2 + 1]);
      var w :| w in kept[i][dst] && w.rID == at;
      assert Keeps(adjacent[i], kept[i]);
      HopAdvances(g, adjacent, i, dst, w);
      if |q| == 1 {
        SingleLink(g, i, at);
        assert r == [i, at];
      }
    }
  }

  // No run is longer than the distance it has to cover or visits a router twice.  It can go on
  // unless it is at the destination, and once there it has followed a shortest path.
  lemma EveryMessageArrives(g: Net, adjacent: seq<Row>, kept: seq<Row>, src: nat, dst: nat, r: seq<nat>)
    requires ValidNet(g) && AllClosed(g, adjacent) && AllKept(adjacent, kept)
    requires src < g.n && dst < g.n && src != dst && IsRun(kept, src, dst, r)
    requires |adjacent[src]| == g.n && adjacent[src][dst] != [] && Remaining(adjacent, src, dst) < MAX_DIST
    ensures |r| - 1 <= Remaining(adjacent, src, dst)
    ensures forall a, b | 0 <= a < b < |r| :: r[a] != r[b]
    ensures r[|r| - 1] != dst ==> exists j: nat :: IsRun(kept, src, dst, r + [j])
    ensures r[|r| - 1] == dst ==>
              Route(g, src, dst, r) && AtLeast(g, src, dst, Cost(g, r)) && Cost(g, r) == Remaining(adjacent, src, dst)
  {
    RunIsShortest(g, adjacent, kept, src, dst, r);
    ClosedDistance(g, adjacent, src, dst);
    forall a, b | 0 <= a < b < |r|
      ensures r[a] != r[b]
    {
      RunDescends(g, adjacent, kept, src, dst, r, a, b);
    }
    var at := r[|r| - 1];
    if at != dst {
      assert Keeps(adjacent[at], kept[at]);
      var w := kept[at][dst][0];
      var r' := r + [w.rID];
      assert w in kept[at][dst];
      forall k: nat | k + 1 < |r'|
        ensures Hop(kept, dst, r'[k], r'[k + 1])
      {
        if k + 1 < |r| {
          assert Hop(kept, dst, r[k], r[k + 1]);
        }
      }
      assert IsRun(kept, src, dst, r');
    }
  }

  lemma {:induction false} RunDescends(g: Net, adjacent: seq<Row>, kept: seq<Row>, src: nat, dst: nat, r: seq<nat>,
      a: nat, b: nat)
    requires ValidNet(g) && AllClosed(g, adjacent) && AllKept(adjacent, kept)
    requires src < g.n && dst < g.n && src != dst && IsRun(kept, src, dst, r)
    requires |adjacent[src]| == g.n && adjacent[src][dst] != [] && Remaining(adjacent, src, dst) < MAX_DIST
    requires a < b < |r|
    ensures r[a] < g.n && |adjacent[r[a]]| == g.n && adjacent[r[a]][dst] != []
    ensures r[b] < g.n && |adjacent[r[b]]| == g.n && adjacent[r[b]][dst] != []
    ensures Remaining(adjacent, r[b], dst) < Remaining(adjacent, r[a], dst)
    decreases b
  {
    LastHopDescends(g, adjacent, kept, src, dst, r, b);
    if a < b - 1 {
      RunDescends(g, adjacent, kept, src, dst, r, a, b - 1);
    }
  }

  lemma LastHopDescends(g: Net, adjacent: seq<Row>, kept: seq<Row>, src: nat, dst: nat, r: seq<nat>, b: nat)
    requires ValidNet(g) && AllClosed(g, adjacent) && AllKept(adjacent, kept)
    requires src < g.n && dst < g.n && src != dst && IsRun(kept, src, dst, r)
    requires |adjacent[src]| == g.n && adjacent[src][dst] != [] && Remaining(adjacent, src, dst) < MAX_DIST
    requires 0 < b < |r|
    ensures r[b - 1] < g.n && |adjacent[r[b - 1]]| == g.n && adjacent[r[b - 1]][dst] != []
    ensures r[b] < g.n && |adjacent[r[b]]| == g.n && adjacent[r[b]][dst] != []
    ensures Remaining(adjacent, r[b], dst) < Remaining(adjacent, r[b - 1], dst)
  {
    var q := r[..b];
    assert IsRun(kept, src, dst, q) by {
      forall k: nat | k + 1 < |q|
        ensures Hop(kept, dst, q[k], q[k + 1])
      {
        assert Hop(kept, dst, r[k], r[k + 1]);
      }
    }
    RunIsShortest(g, adjacent, kept, src, dst, q);
    var i := r[b - 1];
    assert Hop(kept, dst, i, r[b - 1 + 1]);
    var w :| w in kept[i][dst] && w.rID == r[b];
    assert Keeps(adjacent[i], kept[i]);
    HopAdvances(g, adjacent, i, dst, w);
  }

  // What forwardMsg adds up along a run: every hop charges the crossbar and the wire's distance,
  // which is the whole distance still to go.
  ghost function Charged(g: Net, adjacent: seq<Row>, dst: nat, r: seq<nat>): nat
    requires r != []
    requires forall k | 0 <= k < |r| :: r[k] < |adjacent| && dst < |adjacent[r[k]]| && adjacent[r[k]][dst] != []
  {
    if |r| == 1 then 0
    else Charged(g, adjacent, dst, r[..|r| - 1]) + g.crossLat + Remaining(adjacent, r[|r| - 2], dst)
  }

  ghost predicate ChargedRight(g: Net, adjacent: seq<Row>, dst: nat, r: seq<nat>)
    requires ValidNet(g) && r != []
  {
    && (forall k | 0 <= k < |r| :: r[k] < |adjacent| && dst < |adjacent[r[k]]| && adjacent[r[k]][dst] != [])
    && IsPath(g, r) && Charged(g, adjacent, dst, r) == g.crossLat + Cost(g, r)
  }

  // Router src has wires to send a message to dst, which can be reached.
  ghost predicate Sends(g: Net, adjacent: seq<Row>, kept: seq<Row>, src: nat, dst: nat)
    requires ValidNet(g)
  {
    && AllClosed(g, adjacent) && AllKept(adjacent, kept) && src < g.n && dst < g.n && src != dst
    && |adjacent[src]| == g.n && adjacent[src][dst] != [] && Remaining(adjacent, src, dst) < MAX_DIST
  }

  ghost predicate Arrives(kept: seq<Row>, src: nat, dst: nat, r: seq<nat>) {
    IsRun(kept, src, dst, r) && r[|r| - 1] == dst
  }

  lemma RightIfDirect(g: Net, adjacent: seq<Row>, kept: seq<Row>, src: nat, dst: nat, r: seq<nat>)
    requires ValidNet(g) && Sends(g, adjacent, kept, src, dst) && Arrives(kept, src, dst, r)
    ensures 2 <= |r| && Hop(kept, dst, src, r[1])
    ensures ChargedRight(g, adjacent, dst, r) <==> r[1] == dst
  {
    hide ValidNet, RowClosed, Hop, Keeps, Charged, IsPath;
    ChargeExactForNeighbors(g, adjacent, kept, src, dst, r);
    assert Hop(kept, dst, r[0], r[0 + 1]);
  }

  // All messages from src to dst are charged right if and only if each wire that src keeps for dst
  // leads there directly.
  lemma ChargeExactly(g: Net, adjacent: seq<Row>, kept: seq<Row>, src: nat, dst: nat)
    requires ValidNet(g) && Sends(g, adjacent, kept, src, dst)
    ensures |kept| == g.n && |kept[src]| == g.n
    ensures (forall w | w in kept[src][dst] :: w.rID == dst) <==>
            (forall r | Arrives(kept, src, dst, r) :: ChargedRight(g, adjacent, dst, r))
  {
    hide ValidNet, RowClosed, ChargedRight, IsRun;
    assert Keeps(adjacent[src], kept[src]);
    forall r | Arrives(kept, src, dst, r)
      ensures 2 <= |r| && Hop(kept, dst, src, r[1])
      ensures ChargedRight(g, adjacent, dst, r) <==> r[1] == dst
    {
      RightIfDirect(g, adjacent, kept, src, dst, r);
    }
    if w :| w in kept[src][dst] && w.rID != dst {
      var r := ArriveBy(g, adjacent, kept, src, dst, w);
      RightIfDirect(g, adjacent, kept, src, dst, r);
    }
  }

  lemma ArriveBy(g: Net, adjacent: seq<Row>, kept: seq<Row>, src: nat, dst: nat, w: Wire) returns (r: seq<nat>)
    requires ValidNet(g) && Sends(g, adjacent, kept, src, dst) && src < |kept| && dst < |kept[src]| &&
        w in kept[src][dst]
    ensures Arrives(kept, src, dst, r) && 2 <= |r| && r[1] == w.rID
  {
    assert Hop(kept, dst, src, w.rID);
    r := Arrive(g, adjacent, kept, src, dst, [src, w.rID]);
  }

  // Every run can be carried on until it arrives.
  lemma {:induction false} Arrive(g: Net, adjacent: seq<Row>, kept: seq<Row>, src: nat, dst: nat, r: seq<nat>)
      returns (t: seq<nat>)
    requires ValidNet(g) && Sends(g, adjacent, kept, src, dst) && IsRun(kept, src, dst, r)
    ensures IsRun(kept, src, dst, t) && t[|t| - 1] == dst && r <= t
    decreases Remaining(adjacent, src, dst) + 1 - |r|
  {
    EveryMessageArrives(g, adjacent, kept, src, dst, r);
    if r[|r| - 1] == dst {
      t := r;
    } else {
      var j: nat :| IsRun(kept, src, dst, r + [j]);
      EveryMessageArrives(g, adjacent, kept, src, dst, r + [j]);
      t := Arrive(g, adjacent, kept, src, dst, r + [j]);
    }
  }

  // The time charged is the first crossbar plus the path length exactly if the first wire leads to dst.
  lemma ChargeExactForNeighbors(g: Net, adjacent: seq<Row>, kept: seq<Row>, src: nat, dst: nat, r: seq<nat>)
    requires ValidNet(g) && AllClosed(g, adjacent) && AllKept(adjacent, kept)
    requires src < g.n && dst < g.n && src != dst && IsRun(kept, src, dst, r) && r[|r| - 1] == dst
    requires |adjacent[src]| == g.n && adjacent[src][dst] != [] && Remaining(adjacent, src, dst) < MAX_DIST
    ensures forall k | 0 <= k < |r| :: r[k] < g.n && |adjacent[r[k]]| == g.n && adjacent[r[k]][dst] != []
    ensures IsPath(g, r)
    ensures Charged(g, adjacent, dst, r) >= g.crossLat + Cost(g, r)
    ensures 2 <= |r| && (r[1] == dst <==> |r| == 2)
    ensures Charged(g, adjacent, dst, r) == g.crossLat + Cost(g, r) <==> r[1] == dst
  {
    RunIsShortest(g, adjacent, kept, src, dst, r);
    forall k | 0 <= k < |r|
      ensures r[k] < g.n && |adjacent[r[k]]| == g.n && adjacent[r[k]][dst] != []
    {
      if 0 < k {
        RunDescends(g, adjacent, kept, src, dst, r, 0, k);
      }
    }
    ChargedAtLeastFirst(g, adjacent, dst, r);
    if 2 < |r| {
      assert Hop(kept, dst, r[1], r[1 + 1]);
    }
  }

  lemma {:induction false} ChargedAtLeastFirst(g: Net, adjacent: seq<Row>, dst: nat, r: seq<nat>)
    requires 2 <= |r| && 1 <= g.crossLat
    requires forall k | 0 <= k < |r| :: r[k] < |adjacent| && dst < |adjacent[r[k]]| && adjacent[r[k]][dst] != []
    ensures Charged(g, adjacent, dst, r) >= g.crossLat + Remaining(adjacent, r[0], dst)
    ensures |r| == 2 ==> Charged(g, adjacent, dst, r) == g.crossLat + Remaining(adjacent, r[0], dst)
    ensures |r| > 2 ==> Charged(g, adjacent, dst, r) > g.crossLat + Remaining(adjacent, r[0], dst)
    decreases |r|
  {
    if |r| > 2 {
      ChargedAtLeastFirst(g, adjacent, dst, r[..|r| - 1]);
    } else {
      assert |r[..|r| - 1]| == 1;
    }
  }
}
