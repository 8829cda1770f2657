/**
 `shortestPaths` computes one row of the matrix in place; `make` runs it on all
 rows.  The lemmas below are the invariant of its loop, one small step each.
 */
module Dijkstra {
  import opened Paths

  // w leads from s to i in w.dist, through the port of a link that starts such a path.
  ghost predicate HopWire(g: Net, s: nat, i: nat, w: Wire)
    requires ValidNet(g) && s < g.n
  {
    w.rID < g.n && w.port == g.link[s][w.rID].port && FirstHop(g, s, i, w.dist, w.rID)
  }

  ghost predicate Uniform(ws: seq<Wire>) {
    ws != [] && forall w | w in ws :: w.dist == ws[0].dist
  }

  ghost predicate Distinct(ws: seq<Wire>) {
    forall a, b | 0 <= a < b < |ws| :: ws[a] != ws[b]
  }

  // Every wire kept for i is usable; there may be better or further ones.
  ghost predicate Entry(g: Net, s: nat, i: nat, ws: seq<Wire>)
    requires ValidNet(g) && s < g.n
  {
    && Uniform(ws) && Distinct(ws) && 1 <= ws[0].dist <= MAX_DIST
    && (ws[0].dist < MAX_DIST ==> forall w | w in ws :: HopWire(g, s, i, w))
  }

  // Every first hop of every shortest path from s to i has its wire in ws.
  ghost predicate Complete(g: Net, s: nat, i: nat, ws: seq<Wire>)
    requires ValidNet(g) && s < g.n && ws != []
  {
    forall h: nat | h < g.n && FirstHop(g, s, i, ws[0].dist, h) ::
      Wire(h, g.link[s][h].port, ws[0].dist) in ws
  }

  // The wires for i are exactly the first hops of the shortest paths from s to i.
  ghost predicate Exact(g: Net, s: nat, i: nat, ws: seq<Wire>)
    requires ValidNet(g) && s < g.n
  {
    && Entry(g, s, i, ws) && AtLeast(g, s, i, ws[0].dist)
    && (ws[0].dist < MAX_DIST ==> Complete(g, s, i, ws))
  }

  ghost predicate RowClosed(g: Net, row: Row, s: nat)
    requires ValidNet(g) && s < g.n
  {
    && |row| == g.n && row[s] == [Wire(s, LOCAL_PORT1, 0)]
    && forall i: nat | i < g.n && i != s :: Exact(g, s, i, row[i])
  }

  ghost predicate RowOpen(g: Net, row: Row, s: nat)
    requires ValidNet(g) && s < g.n
  {
    |row| == g.n && forall i: nat | i < g.n :: row[i] == [g.link[s][i]]
  }

  lemma ExactIsDistance(g: Net, s: nat, i: nat, ws: seq<Wire>)
    requires ValidNet(g) && s < g.n && Exact(g, s, i, ws)
    ensures IsDistance(g, s, i, ws[0].dist)
  {
    if ws[0].dist < MAX_DIST {
      assert HopWire(g, s, i, ws[0]);
    }
  }

  ghost predicate Shape(g: Net, s: nat, row: Row, tent: seq<bool>)
    requires ValidNet(g)
  {
    && s < g.n && |row| == g.n && |tent| == g.n && !tent[s]
    && row[s] == [Wire(s, LOCAL_PORT1, 0)]
    && forall i: nat | i < g.n && i != s :: Entry(g, s, i, row[i])
  }

  ghost predicate ClosedExact(g: Net, s: nat, row: Row, tent: seq<bool>)
    requires ValidNet(g) && Shape(g, s, row, tent)
  {
    forall i: nat | i < g.n && i != s && !tent[i] :: Exact(g, s, i, row[i])
  }

  // No tentative distance is below a closed one.
  ghost predicate Ordered(g: Net, s: nat, row: Row, tent: seq<bool>)
    requires ValidNet(g) && Shape(g, s, row, tent)
  {
    forall k: nat, i: nat | k < g.n && i < g.n && !tent[k] && tent[i] ::
      row[k][0].dist <= row[i][0].dist
  }

  // The link from closed k to i offers nothing that row[i] has not taken into account.
  ghost predicate Relaxed(g: Net, s: nat, row: Row, k: nat, i: nat)
    requires ValidNet(g) && s < g.n && |row| == g.n && k < g.n && i < g.n && row[k] != [] && row[i] != []
  {
    var d, w := row[i][0].dist, g.link[k][i];
    Linked(g, k, i) ==>
      if k == s then
        d <= w.dist && (d == w.dist ==> Wire(i, w.port, d) in row[i])
      else
        var e := row[k][0].dist + g.crossLat + w.dist;
        d <= e && (d == e && d < MAX_DIST ==> forall v | v in row[k] :: Wire(v.rID, v.port, d) in row[i])
  }

  ghost predicate AllRelaxed(g: Net, s: nat, row: Row, tent: seq<bool>)
    requires ValidNet(g) && Shape(g, s, row, tent)
  {
    forall k: nat, i: nat | k < g.n && i < g.n && !tent[k] && tent[i] :: Relaxed(g, s, row, k, i)
  }

  ghost predicate IsMin(g: Net, s: nat, row: Row, tent: seq<bool>, k: nat)
    requires ValidNet(g) && Shape(g, s, row, tent)
  {
    k < g.n && tent[k] && forall i: nat | i < g.n && tent[i] :: row[k][0].dist <= row[i][0].dist
  }

  // A path that leaves the closed routers costs at least the least tentative distance.
  lemma {:induction false} MinBound(g: Net, s: nat, row: Row, tent: seq<bool>, k: nat, p: seq<nat>)
    requires ValidNet(g) && Shape(g, s, row, tent) && ClosedExact(g, s, row, tent)
    requires AllRelaxed(g, s, row, tent) && IsMin(g, s, row, tent, k)
    requires IsPath(g, p) && p[0] == s && p[|p| - 1] < g.n && tent[p[|p| - 1]]
    ensures row[k][0].dist <= Cost(g, p)
    decreases |p|
  {
    var y, x := p[|p| - 2], p[|p| - 1];
    if tent[y] {
      MinBound(g, s, row, tent, k, p[..|p| - 1]);
    } else {
      assert Relaxed(g, s, row, y, x);
      if y != s {
        assert Exact(g, s, y, row[y]);
        assert Route(g, s, y, p[..|p| - 1]);
      }
    }
  }

  // When the least tentative router is closed, no first hop is missing.
  lemma NoHopMissing(g: Net, s: nat, row: Row, tent: seq<bool>, k: nat, p: seq<nat>)
    requires ValidNet(g) && Shape(g, s, row, tent) && ClosedExact(g, s, row, tent)
    requires AllRelaxed(g, s, row, tent) && IsMin(g, s, row, tent, k)
    requires Route(g, s, k, p) && Cost(g, p) == row[k][0].dist < MAX_DIST
    ensures p[1] < g.n && Wire(p[1], g.link[s][p[1]].port, row[k][0].dist) in row[k]
  {
    var y, d := p[|p| - 2], row[k][0].dist;
    assert ValidLink(g, y, k);
    if |p| == 2 {
      assert Relaxed(g, s, row, s, k);
    } else {
      var q := p[..|p| - 1];
      if tent[y] {
        MinBound(g, s, row, tent, k, q);
        assert false;
      } else {
        assert Relaxed(g, s, row, y, k);
        assert y != s;
        assert Exact(g, s, y, row[y]);
        assert Route(g, s, y, q);
        assert Cost(g, q) == row[y][0].dist;
        FirstHopInRange(g, s, y, q);
        assert FirstHop(g, s, y, row[y][0].dist, p[1]);
        assert Wire(p[1], g.link[s][p[1]].port, row[y][0].dist) in row[y];
      }
    }
  }

  lemma HopPort(g: Net, s: nat, i: nat, w: Wire)
    requires ValidNet(g) && s < g.n && HopWire(g, s, i, w)
    ensures Linked(g, s, w.rID) && UP_PORT <= w.port < LOCAL_PORT1
  {
    var p :| Route(g, s, i, p) && Cost(g, p) == w.dist && p[1] == w.rID;
    FirstHopInRange(g, s, i, p);
    assert ValidLink(g, s, w.rID);
  }

  lemma FirstHopInRange(g: Net, s: nat, i: nat, p: seq<nat>)
    requires ValidNet(g) && Route(g, s, i, p)
    ensures Linked(g, s, p[1])
  {
    if 2 < |p| {
      PathSuffix(g, p);
    }
  }

  lemma MinBecomesExact(g: Net, s: nat, row: Row, tent: seq<bool>, k: nat)
    requires ValidNet(g) && Shape(g, s, row, tent) && ClosedExact(g, s, row, tent)
    requires AllRelaxed(g, s, row, tent) && IsMin(g, s, row, tent, k)
    ensures Exact(g, s, k, row[k])
  {
    var d := row[k][0].dist;
    forall p | Route(g, s, k, p)
      ensures d <= Cost(g, p)
    {
      MinBound(g, s, row, tent, k, p);
    }
    if d < MAX_DIST {
      forall h: nat | h < g.n && FirstHop(g, s, k, d, h)
        ensures Wire(h, g.link[s][h].port, d) in row[k]
      {
        var p :| Route(g, s, k, p) && Cost(g, p) == d && p[1] == h;
        NoHopMissing(g, s, row, tent, k, p);
      }
    }
  }

  // What relaxing may rely on about the weight found in row k, be it a link or a closed distance.
  ghost predicate Weight(g: Net, k: nat, i: nat, w: nat)
    requires ValidNet(g)
  {
    && 1 <= w <= MAX_DIST && (w < MAX_DIST ==> Attained(g, k, i, w))
    && (Linked(g, k, i) ==> w <= g.link[k][i].dist)
  }

  lemma OpenWeight(g: Net, k: nat, i: nat)
    requires ValidNet(g) && k < g.n && i < g.n && k != i
    ensures Weight(g, k, i, g.link[k][i].dist)
  {
    assert ValidLink(g, k, i);
    if Linked(g, k, i) {
      SingleLink(g, k, i);
    }
  }

  lemma ClosedWeight(g: Net, k: nat, i: nat, ws: seq<Wire>)
    requires ValidNet(g) && k < g.n && i < g.n && Exact(g, k, i, ws)
    ensures Weight(g, k, i, ws[0].dist)
  {
    ExactIsDistance(g, k, i, ws);
    if Linked(g, k, i) {
      SingleLink(g, k, i);
    }
  }

  // A first hop towards k is a first hop towards i along a route through k.
  lemma ExtendHop(g: Net, s: nat, k: nat, i: nat, v: Wire, w: nat)
    requires ValidNet(g) && s < g.n && HopWire(g, s, k, v) && Attained(g, k, i, w)
    ensures HopWire(g, s, i, Wire(v.rID, v.port, v.dist + g.crossLat + w))
  {
    var p :| Route(g, s, k, p) && Cost(g, p) == v.dist && p[1] == v.rID;
    var q :| Route(g, k, i, q) && Cost(g, q) == w;
    CostJoin(g, p, q);
    var r := p + q[1..];
    assert Route(g, s, i, r) && r[1] == v.rID;
  }

  // ws with the wires of via, lengthened by extra, added.
  ghost predicate IsMerge(r: seq<Wire>, ws: seq<Wire>, via: seq<Wire>, extra: nat) {
    && (forall w | w in ws :: w in r)
    && (forall v | v in via :: Lengthen(v, extra) in r)
    && (forall w | w in r :: w in ws || exists v :: v in via && w == Lengthen(v, extra))
  }

  function Lengthen(w: Wire, extra: nat): Wire {
    Wire(w.rID, w.port, w.dist + extra)
  }

  lemma MergeMore(acc: seq<Wire>, next: seq<Wire>, ws: seq<Wire>, via: seq<Wire>, opt: nat, extra: nat)
    requires opt < |via| && IsMerge(acc, ws, via[..opt], extra)
    requires next == if Lengthen(via[opt], extra) in acc then acc else acc + [Lengthen(via[opt], extra)]
    ensures IsMerge(next, ws, via[..opt + 1], extra)
  {
    assert via[..opt + 1] == via[..opt] + [via[opt]];
  }

  // The entry for i after relaxing the edge of weight w from closed k.
  ghost predicate IsRelaxation(g: Net, row: Row, k: nat, i: nat, w: nat, ws: seq<Wire>)
    requires k < |row| && i < |row| && row[k] != [] && row[i] != []
  {
    var e := row[k][0].dist + g.crossLat + w;
    if e > row[i][0].dist then ws == row[i]
    else ws != [] && Distinct(ws) && IsMerge(ws, if e < row[i][0].dist then [] else row[i], row[k], g.crossLat + w)
  }

  lemma RelaxedEntry(g: Net, s: nat, row: Row, tent: seq<bool>, k: nat, i: nat, w: nat, ws: seq<Wire>)
    requires ValidNet(g) && Shape(g, s, row, tent) && k < g.n && i < g.n && k != s && tent[i]
    requires Weight(g, k, i, w) && IsRelaxation(g, row, k, i, w, ws)
    ensures Entry(g, s, i, ws)
    ensures ws[0].dist <= row[i][0].dist
    ensures ws[0].dist == row[i][0].dist || ws[0].dist == row[k][0].dist + g.crossLat + w
    ensures ws[0].dist == row[i][0].dist ==> forall v | v in row[i] :: v in ws
    ensures Relaxed(g, s, row[i := ws], k, i)
  {
    hide FirstHop, Attained, IsPath;
    assert Entry(g, s, k, row[k]) && Entry(g, s, i, row[i]);
    if row[k][0].dist + g.crossLat + w <= row[i][0].dist {
      MergedEntry(g, s, row, k, i, w, ws);
    }
    if Linked(g, k, i) && ws[0].dist == row[k][0].dist + g.crossLat + g.link[k][i].dist < MAX_DIST {
      forall v | v in row[k]
        ensures Wire(v.rID, v.port, ws[0].dist) in ws
      {
        assert Lengthen(v, g.crossLat + w) in ws;
      }
    }
  }

  // The wires of a merge all lead to i in the new distance.
  lemma MergedEntry(g: Net, s: nat, row: Row, k: nat, i: nat, w: nat, ws: seq<Wire>)
    requires ValidNet(g) && s < g.n && k < |row| && i < |row|
    requires Entry(g, s, k, row[k]) && Entry(g, s, i, row[i]) && Weight(g, k, i, w)
    requires row[k][0].dist + g.crossLat + w <= row[i][0].dist && IsRelaxation(g, row, k, i, w, ws)
    ensures Entry(g, s, i, ws) && ws[0].dist == row[k][0].dist + g.crossLat + w
  {
    hide FirstHop, Attained, IsPath;
    var e := row[k][0].dist + g.crossLat + w;
    forall v | v in ws
      ensures v.dist == e && (e < MAX_DIST ==> HopWire(g, s, i, v))
    {
      if v !in row[i] || e < row[i][0].dist {
        var u :| u in row[k] && v == Lengthen(u, g.crossLat + w);
        if e < MAX_DIST {
          ExtendHop(g, s, k, i, u, w);
        }
      }
    }
  }

  // Relaxing only ever copies wires that start at a real link.
  lemma RelaxablePort(g: Net, s: nat, row: Row, tent: seq<bool>, k: nat, i: nat, w: nat)
    requires ValidNet(g) && Shape(g, s, row, tent) && k < g.n && i < g.n && !tent[k] && tent[i]
    requires k == s ==> w == row[i][0].dist
    requires row[k][0].dist + g.crossLat + w <= row[i][0].dist
    ensures k != s && UP_PORT <= row[k][0].port < LOCAL_PORT1
  {
    assert Entry(g, s, i, row[i]) && Entry(g, s, k, row[k]);
    assert HopWire(g, s, k, row[k][0]);
    HopPort(g, s, k, row[k][0]);
  }

  // The invariant of the scan that relaxes the edges of k: routers below m are done.
  ghost predicate Scanning(g: Net, s: nat, row: Row, tent: seq<bool>, k: nat, m: nat)
    requires ValidNet(g) && Shape(g, s, row, tent)
  {
    && k < g.n && !tent[k] && ClosedExact(g, s, row, tent) && Ordered(g, s, row, tent)
    && (forall j: nat | j < g.n && !tent[j] :: row[j][0].dist <= row[k][0].dist)
    && (forall j: nat, i: nat | j < g.n && i < g.n && !tent[j] && tent[i] && (j != k || i < m || k == s) ::
          Relaxed(g, s, row, j, i))
  }

  lemma ScanStart(g: Net, s: nat, row: Row, tent: seq<bool>)
    requires ValidNet(g) && s < g.n && |row| == g.n && |tent| == g.n
    requires row[s] == [Wire(s, LOCAL_PORT1, 0)]
    requires forall i: nat | i < g.n :: (tent[i] <==> i != s) && (i != s ==> row[i] == [g.link[s][i]])
    ensures Shape(g, s, row, tent) && Scanning(g, s, row, tent, s, 0)
  {
    forall i: nat | i < g.n && i != s
      ensures Entry(g, s, i, row[i]) && Relaxed(g, s, row, s, i)
    {
      assert ValidLink(g, s, i);
      if Linked(g, s, i) {
        SingleLink(g, s, i);
        assert HopWire(g, s, i, g.link[s][i]);
      }
    }
  }

  lemma ScanStep(g: Net, s: nat, row: Row, tent: seq<bool>, k: nat, i: nat, w: nat, ws: seq<Wire>)
    requires ValidNet(g) && Shape(g, s, row, tent) && i < g.n && Scanning(g, s, row, tent, k, i)
    requires k != s && tent[i] && Weight(g, k, i, w) && IsRelaxation(g, row, k, i, w, ws)
    ensures Shape(g, s, row[i := ws], tent) && Scanning(g, s, row[i := ws], tent, k, i + 1)
  {
    RelaxedEntry(g, s, row, tent, k, i, w, ws);
    var row' := row[i := ws];
    forall j: nat, x: nat | j < g.n && x < g.n && !tent[j] && tent[x] && (j != k || x < i + 1 || k == s)
      ensures Relaxed(g, s, row', j, x)
    {
      if x != i {
        assert Relaxed(g, s, row, j, x);
      } else if j != k {
        assert Relaxed(g, s, row, j, i);
        StillRelaxed(g, s, row, tent, j, k, i, w, ws);
      }
    }
  }

  // A smaller distance, or more wires at the same one, undoes no earlier relaxation.
  lemma StillRelaxed(g: Net, s: nat, row: Row, tent: seq<bool>, j: nat, k: nat, i: nat, w: nat, ws: seq<Wire>)
    requires ValidNet(g) && Shape(g, s, row, tent) && i < g.n && j < g.n && k < g.n && tent[i] && !tent[j] && !tent[k]
    requires Relaxed(g, s, row, j, i) && ws != [] && ws[0].dist <= row[i][0].dist
    requires ws[0].dist == row[i][0].dist ==> forall v | v in row[i] :: v in ws
    ensures Relaxed(g, s, row[i := ws], j, i)
  {
  }

  lemma ScanEnd(g: Net, s: nat, row: Row, tent: seq<bool>, k: nat, next: nat)
    requires ValidNet(g) && Shape(g, s, row, tent) && Scanning(g, s, row, tent, k, g.n)
    requires IsMin(g, s, row, tent, next)
    ensures Shape(g, s, row, tent[next := false]) && Scanning(g, s, row, tent[next := false], next, 0)
  {
    MinBecomesExact(g, s, row, tent, next);
    var tent' := tent[next := false];
    forall j: nat, i: nat | j < g.n && i < g.n && !tent'[j] && tent'[i] && j != next
      ensures Relaxed(g, s, row, j, i)
    {
      assert !tent[j] && tent[i];
    }
  }
}

module RoutingPolicies {
  import opened Paths
  import opened Dijkstra

  class RoutingPolicy {
    const nRouters: nat
    const crossLat: nat
    var adjacent: seq<Row>

    constructor (nRouters: nat, crossLat: nat)
      ensures this.nRouters == nRouters && this.crossLat == crossLat
      ensures |adjacent| == nRouters
      ensures forall i | 0 <= i < nRouters :: adjacent[i] == seq(nRouters, _ => [Wire(0, DISABLED_PORT, MAX_DIST)])
    {
      this.nRouters := nRouters;
      this.crossLat := crossLat;
      adjacent := seq(nRouters, _ => seq(nRouters, _ => [Wire(0, DISABLED_PORT, MAX_DIST)]));
    }

    // Rows below m hold closed distances, the others still hold the links of g.
    ghost predicate ClosedBelow(g: Net, m: nat)
      requires ValidNet(g) && m <= g.n
      reads this
    {
      && g.n == nRouters && g.crossLat == crossLat && |adjacent| == g.n
      && forall k: nat | k < g.n :: if k < m then RowClosed(g, adjacent[k], k) else RowOpen(g, adjacent[k], k)
    }

    // Runs the algorithm on all rows of the network g that the links describe.
    method Make(ghost g: Net)
      requires ValidNet(g) && ClosedBelow(g, 0)
      modifies this
      ensures ClosedBelow(g, g.n)
    {
      for i := 0 to nRouters
        invariant ClosedBelow(g, i)
      {
        ShortestPaths(g, i);
      }
    }

    // While row dest is under way, every other row is as ClosedBelow says.
    ghost predicate OthersKept(g: Net, dest: nat)
      requires ValidNet(g)
      reads this
    {
      && dest < g.n && g.n == nRouters && g.crossLat == crossLat && |adjacent| == g.n
      && forall k: nat | k < g.n && k != dest ::
           if k < dest then RowClosed(g, adjacent[k], k) else RowOpen(g, adjacent[k], k)
    }

    lemma EntryWeight(g: Net, dest: nat, k: nat, i: nat)
      requires ValidNet(g) && OthersKept(g, dest) && k < g.n && i < g.n
      requires |adjacent[dest]| == g.n && forall j: nat | j < g.n && j != dest :: Entry(g, dest, j, adjacent[dest][j])
      requires adjacent[dest][dest] != []
      ensures |adjacent[k]| == g.n && adjacent[k][i] != []
      ensures k != i && i != dest ==> 1 <= adjacent[k][i][0].dist
      ensures k != i && k != dest ==> Weight(g, k, i, adjacent[k][i][0].dist)
    {
      if k == dest {
        assert i != dest ==> Entry(g, dest, i, adjacent[dest][i]);
      } else if k < dest {
        if k != i {
          assert Exact(g, k, i, adjacent[k][i]);
          ClosedWeight(g, k, i, adjacent[k][i]);
        }
      } else if k != i {
        OpenWeight(g, k, i);
      }
    }

    // The wires through `via`, each lengthened by the edge, that `into` does not have yet.
    method PushMissing(into: seq<Wire>, via: seq<Wire>, dist: nat) returns (ws: seq<Wire>)
      requires Distinct(into) && via != [] && UP_PORT <= via[0].port < LOCAL_PORT1
      ensures ws != [] && Distinct(ws) && IsMerge(ws, into, via, crossLat + dist)
    {
      ws := into;
      for opt := 0 to |via|
        invariant Distinct(ws) && IsMerge(ws, into, via[..opt], crossLat + dist)
      {
        var wire := Wire(via[opt].rID, via[opt].port, via[opt].dist + dist + crossLat);
        if UP_PORT <= via[0].port < LOCAL_PORT1 {
          var found := false;
          for conta := 0 to |ws|
            invariant found <==> wire in ws[..conta]
          {
            if ws[conta] == wire {
              found := true;
              break;
            }
          }
          MergeMore(ws, if found then ws else ws + [wire], into, via, opt, crossLat + dist);
          if !found {
            ws := ws + [wire];
          }
        }
      }
      assert via[..|via|] == via;
      assert Lengthen(via[0], crossLat + dist) in ws;
    }

    method RelaxEdge(dest: nat, k: nat, i: nat, dist: nat)
      requires |adjacent| == nRouters && dest < nRouters && i < nRouters && k < nRouters && k != i
      requires forall x | 0 <= x < |adjacent| :: |adjacent[x]| == nRouters
      requires adjacent[dest][k] != [] && adjacent[dest][i] != [] && Distinct(adjacent[dest][i])
      requires adjacent[dest][k][0].dist + dist + crossLat <= adjacent[dest][i][0].dist ==>
                 UP_PORT <= adjacent[dest][k][0].port < LOCAL_PORT1
      modifies this
      ensures |adjacent| == nRouters && |adjacent[dest]| == nRouters
      ensures adjacent == old(adjacent)[dest := old(adjacent)[dest][i := adjacent[dest][i]]]
      ensures forall g: Net | g.crossLat == crossLat ::
                IsRelaxation(g, old(adjacent)[dest], k, i, dist, adjacent[dest][i])
    {
      var reach := adjacent[dest][k][0].dist + dist + crossLat;
      ghost var row := adjacent[dest];
      assert row[i := row[i]] == row && adjacent[dest := row] == adjacent;
      if reach <= adjacent[dest][i][0].dist {
        if reach < adjacent[dest][i][0].dist {
          adjacent := adjacent[dest := adjacent[dest][i := []]];
        }
        var ws := PushMissing(adjacent[dest][i], adjacent[dest][k], dist);
        adjacent := adjacent[dest := adjacent[dest][i := ws]];
        assert adjacent[dest] == row[i := ws];
        assert adjacent == old(adjacent)[dest := row[i := ws]];
      }
    }

    // One pass over the edges of k.
    method RelaxFrom(ghost g: Net, dest: nat, k: nat, tentative: seq<bool>)
      requires ValidNet(g) && OthersKept(g, dest) && k < g.n
      requires Shape(g, dest, adjacent[dest], tentative) && Scanning(g, dest, adjacent[dest], tentative, k, 0)
      modifies this
      ensures OthersKept(g, dest)
      ensures Shape(g, dest, adjacent[dest], tentative) && Scanning(g, dest, adjacent[dest], tentative, k, g.n)
    {
      for i := 0 to nRouters
        invariant OthersKept(g, dest)
        invariant Shape(g, dest, adjacent[dest], tentative) && Scanning(g, dest, adjacent[dest], tentative, k, i)
      {
        EntryWeight(g, dest, k, i);
        var dist := adjacent[k][i][0].dist;
        if dist != 0 && tentative[i] {
          ghost var row: Row := adjacent[dest];
          if adjacent[dest][k][0].dist + dist + crossLat <= adjacent[dest][i][0].dist {
            RelaxablePort(g, dest, row, tentative, k, i, dist);
          }
          RelaxEdge(dest, k, i, dist);
          if k != dest {
            ScanStep(g, dest, row, tentative, k, i, dist, adjacent[dest][i]);
          } else {
            assert adjacent[dest] == row;
          }
        }
      }
    }

    method LeastTentative(ghost g: Net, dest: nat, tentative: seq<bool>) returns (k: int)
      requires ValidNet(g) && OthersKept(g, dest) && Shape(g, dest, adjacent[dest], tentative)
      ensures k == -1 ==> forall i | 0 <= i < |tentative| :: !tentative[i]
      ensures k != -1 ==> 0 <= k && IsMin(g, dest, adjacent[dest], tentative, k)
    {
      var min := 2147483647;
      k := -1;
      for i := 0 to nRouters
        invariant k == -1 ==> min == 2147483647 && forall j | 0 <= j < i :: !tentative[j]
        invariant k != -1 ==> 0 <= k < i && tentative[k] && min == adjacent[dest][k][0].dist
        invariant forall j | 0 <= j < i && tentative[j] :: min <= adjacent[dest][j][0].dist
      {
        assert tentative[i] ==> Entry(g, dest, i, adjacent[dest][i]);
        if tentative[i] && adjacent[dest][i][0].dist < min {
          min := adjacent[dest][i][0].dist;
          k := i;
        }
      }
    }

    method Begin(ghost g: Net, dest: nat) returns (tentative: seq<bool>)
      requires ValidNet(g) && dest < g.n && ClosedBelow(g, dest)
      modifies this
      ensures OthersKept(g, dest) && Shape(g, dest, adjacent[dest], tentative)
      ensures Scanning(g, dest, adjacent[dest], tentative, dest, 0)
    {
      tentative := seq(nRouters, _ => true);
      assert RowOpen(g, adjacent[dest], dest);
      var self := adjacent[dest][dest][0 := Wire(dest, LOCAL_PORT1, 0)];
      adjacent := adjacent[dest := adjacent[dest][dest := self]];
      tentative := tentative[dest := false];
      ScanStart(g, dest, adjacent[dest], tentative);
    }

    method ShortestPaths(ghost g: Net, dest: nat)
      requires ValidNet(g) && dest < g.n && ClosedBelow(g, dest)
      modifies this
      ensures ClosedBelow(g, dest + 1)
    {
      var tentative := Begin(g, dest);
      var k: int := dest;
      ghost var rest := set i: nat | i < nRouters && tentative[i];
      while k != -1
        invariant OthersKept(g, dest)
        invariant Shape(g, dest, adjacent[dest], tentative)
        invariant rest == set i: nat | i < nRouters && tentative[i]
        invariant if k == -1 then RowClosed(g, adjacent[dest], dest)
                  else 0 <= k && Scanning(g, dest, adjacent[dest], tentative, k, 0)
        decreases rest, k != -1
      {
        RelaxFrom(g, dest, k, tentative);
        var next := LeastTentative(g, dest, tentative);
        if next != -1 {
          ScanEnd(g, dest, adjacent[dest], tentative, k, next);
          tentative := tentative[next := false];
          rest := rest - {next};
        }
        k := next;
      }
    }
  }
}
