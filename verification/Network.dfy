/**
 A whole network: links become closed distances, distances become routing tables, and the tables
 forward messages.
 */
module Networks {
  import opened Paths
  import opened Dijkstra
  import opened RoutingPolicies
  import opened RoutingTables
  import opened Delivery
  import opened Topologies

  // The distance between two routers of a one-way ring, cut off at MAX_DIST.
  function RingDistance(wireLat: nat, crossLat: nat, hops: nat): nat
    requires 0 < hops
  {
    var c := RingCost(wireLat, crossLat, hops);
    if c < MAX_DIST then c else MAX_DIST
  }

  ghost predicate RingClosed(adjacent: seq<Row>, n: nat, wireLat: nat, crossLat: nat) {
    && |adjacent| == n && (forall i | 0 <= i < n :: |adjacent[i]| == n)
    && forall i: nat, j: nat | i < n && j < n && i != j ::
         RingEntry(adjacent[i][j], i, n, RingDistance(wireLat, crossLat, Ahead(i, j, n)))
  }

  // Everything leaves upwards, to the next router.
  ghost predicate RingEntry(ws: seq<Wire>, i: nat, n: nat, d: nat)
    requires i < n
  {
    && ws != [] && ws[0].dist == d
    && (d < MAX_DIST ==> ws == [Wire(if i + 1 < n then i + 1 else 0, UP_PORT, d)])
  }

  // Creating a one-way ring and running the algorithm on it.
  method MakeUniRing(n: nat, wireLat: nat, crossLat: nat) returns (p: RoutingPolicy, ghost g: Net)
    requires 0 < n && 1 <= crossLat && 1 <= wireLat < MAX_DIST
    ensures ValidNet(g) && g.n == n && g.crossLat == crossLat && IsUniRing(g, wireLat)
    ensures AllClosed(g, p.adjacent) && RingClosed(p.adjacent, n, wireLat, crossLat)
  {
    p := new RoutingPolicy(n, crossLat);
    CreateUniRing(p, wireLat);
    LinkableIsValid(p.adjacent, n, crossLat);
    g := NetOf(p.adjacent, crossLat);
    LinksOfRing(p.adjacent, n, wireLat, crossLat);
    p.Make(g);
    assert AllClosed(g, p.adjacent);
    ClosedRing(g, p.adjacent, wireLat);
  }

  // The same for a fully connected network, where every message is charged right.
  method MakeFullyConnected(n: nat, wireLat: nat, crossLat: nat) returns (p: RoutingPolicy, ghost g: Net)
    requires 0 < n <= LOCAL_PORT1 && 1 <= crossLat && 1 <= wireLat < MAX_DIST
    ensures ValidNet(g) && g.n == n && g.crossLat == crossLat && IsFull(g, wireLat) && AllClosed(g, p.adjacent)
    ensures forall kept, src: nat, dst: nat, r |
        AllKept(p.adjacent, kept) && src < n && dst < n && src != dst && Arrives(kept, src, dst, r) ::
        ChargedRight(g, p.adjacent, dst, r)
  {
    p := new RoutingPolicy(n, crossLat);
    CreateFullyConnected(p, wireLat);
    LinkableIsValid(p.adjacent, n, crossLat);
    g := NetOf(p.adjacent, crossLat);
    FullLinks(p.adjacent, wireLat, crossLat);
    p.Make(g);
    assert AllClosed(g, p.adjacent);
    forall kept, src: nat, dst: nat, r |
      AllKept(p.adjacent, kept) && src < n && dst < n && src != dst && Arrives(kept, src, dst, r)
      ensures ChargedRight(g, p.adjacent, dst, r)
    {
      FullChargesRight(g, p.adjacent, kept, wireLat, src, dst, r);
    }
  }

  lemma FullLinks(adjacent: seq<Row>, wireLat: nat, crossLat: nat)
    requires Linkable(adjacent, |adjacent|) && 1 <= crossLat && 1 <= wireLat < MAX_DIST
    requires forall i: nat, j: nat | i < |adjacent| && j < |adjacent| :: adjacent[i][j][0] == FullLink(i, j, wireLat)
    requires ValidNet(NetOf(adjacent, crossLat))
    ensures IsFull(NetOf(adjacent, crossLat), wireLat)
  {
    var g := NetOf(adjacent, crossLat);
    forall i: nat, j: nat | i < g.n && j < g.n && i != j
      ensures g.link[i][j].dist == wireLat
    {
      assert g.link[i][j] == adjacent[i][j][0];
    }
  }

  lemma FullChargesRight(g: Net, adjacent: seq<Row>, kept: seq<Row>, wireLat: nat, src: nat, dst: nat, r: seq<nat>)
    requires ValidNet(g) && IsFull(g, wireLat) && AllClosed(g, adjacent) && AllKept(adjacent, kept)
    requires src < g.n && dst < g.n && src != dst && Arrives(kept, src, dst, r)
    ensures ChargedRight(g, adjacent, dst, r)
  {
    hide RowClosed, ChargedRight, IsRun;
    FullIsDirect(g, adjacent, wireLat, src, dst);
    assert Keeps(adjacent[src], kept[src]);
    ChargeExactly(g, adjacent, kept, src, dst);
  }

  lemma LinksOfRing(adjacent: seq<Row>, n: nat, wireLat: nat, crossLat: nat)
    requires Linkable(adjacent, n) && 0 < n && 1 <= crossLat
    requires forall i: nat, j: nat | i < n && j < n :: adjacent[i][j][0] == UniLink(i, j, n, wireLat)
    requires ValidNet(NetOf(adjacent, crossLat))
    ensures IsUniRing(NetOf(adjacent, crossLat), wireLat)
  {
    var g := NetOf(adjacent, crossLat);
    forall i: nat, j: nat | i < g.n && j < g.n && i != j
      ensures g.link[i][j] == UniLink(i, j, n, wireLat)
    {
      assert g.link[i][j] == adjacent[i][j][0];
    }
  }

  lemma ClosedRing(g: Net, adjacent: seq<Row>, wireLat: nat)
    requires ValidNet(g) && 1 <= wireLat < MAX_DIST && IsUniRing(g, wireLat) && AllClosed(g, adjacent)
    ensures RingClosed(adjacent, g.n, wireLat, g.crossLat)
  {
    hide RowClosed, IsUniRing, IsDistance;
    forall i: nat | i < g.n
      ensures |adjacent[i]| == g.n
    {
      ClosedDistance(g, adjacent, i, i);
    }
    forall i: nat, j: nat | i < g.n && j < g.n && i != j
      ensures RingEntry(adjacent[i][j], i, g.n, RingDistance(wireLat, g.crossLat, Ahead(i, j, g.n)))
    {
      ClosedDistance(g, adjacent, i, j);
      UniRingDistance(g, wireLat, i, j, adjacent[i][j][0].dist);
      RingWires(g, adjacent, wireLat, i, j);
    }
  }

  lemma RingWires(g: Net, adjacent: seq<Row>, wireLat: nat, i: nat, j: nat)
    requires ValidNet(g) && 1 <= wireLat < MAX_DIST && IsUniRing(g, wireLat) && AllClosed(g, adjacent)
    requires i < g.n && j < g.n && i != j && |adjacent[i]| == g.n && adjacent[i][j] != []
    ensures RingEntry(adjacent[i][j], i, g.n, adjacent[i][j][0].dist)
  {
    assert RowClosed(g, adjacent[i], i);
    var ws := adjacent[i][j];
    assert Exact(g, i, j, ws);
    if ws[0].dist < MAX_DIST {
      var wire := Wire(Succ(i, g.n), UP_PORT, ws[0].dist);
      forall k | 0 <= k < |ws|
        ensures ws[k] == wire
      {
        assert ws[k] in ws && HopWire(g, i, j, ws[k]);
        HopPort(g, i, j, ws[k]);
      }
      if 1 < |ws| {
        FirstTwo(ws, wire);
        assert false;
      }
    }
  }

  lemma FirstTwo(ws: seq<Wire>, w: Wire)
    requires 1 < |ws| && forall k | 0 <= k < |ws| :: ws[k] == w
    ensures ws[0] == ws[1]
  {
  }

  ghost function KeptBy(tables: seq<RoutingTable>): (kept: seq<Row>)
    reads tables
    ensures |kept| == |tables| && forall i | 0 <= i < |tables| :: kept[i] == Succs(tables[i].nextHop)
  {
    seq(|tables|, i requires 0 <= i < |tables| reads tables => Succs(tables[i].nextHop))
  }

  ghost predicate Reaching(row: Row) {
    forall j | 0 <= j < |row| :: row[j] != [] && row[j][0].dist < MAX_DIST
  }

  ghost predicate InTurn(tables: seq<RoutingTable>, n: nat)
    reads tables
  {
    && |tables| == n && (forall i, k | 0 <= i < k < n :: tables[i] != tables[k])
    && forall i | 0 <= i < n :: |tables[i].nextHop| == n && TurnsOk(tables[i])
  }

  // Whose turn it was is one of the wires kept; a fixed path keeps one only.
  ghost predicate TurnsOk(table: RoutingTable)
    reads table
  {
    forall d | 0 <= d < |table.nextHop| && table.nextHop[d].succs != [] ::
      && table.nextHop[d].prevTurn < |table.nextHop[d].succs|
      && (table.fixMessagePath ==> |table.nextHop[d].succs| == 1)
  }

  // The table of router i keeps all wires of its row, or with fixed paths one for each destination,
  // whose port as few destinations as possible use.
  ghost predicate Tabled(table: RoutingTable, row: Row, fix: bool)
    reads table
  {
    && table.fixMessagePath == fix && |table.nextHop| == |row|
    && if fix then forall j | 0 <= j < |row| :: Fixed(table.nextHop, row, j) else Succs(table.nextHop) == row
  }

  // One table per router, filled from its row.  Fixed paths need every router to be reachable.
  method MakeTables(ghost g: Net, adjacent: seq<Row>, fix: bool) returns (tables: seq<RoutingTable>)
    requires ValidNet(g) && AllClosed(g, adjacent) && (fix ==> forall i | 0 <= i < g.n :: Reaching(adjacent[i]))
    ensures fresh(tables) && InTurn(tables, g.n) && AllKept(adjacent, KeptBy(tables))
    ensures forall i | 0 <= i < g.n :: Tabled(tables[i], adjacent[i], fix)
    ensures !fix ==> KeptBy(tables) == adjacent
  {
    hide RowClosed, ValidNet, PortsOk;
    tables := [];
    for i := 0 to |adjacent|
      invariant fresh(tables) && |tables| == i && forall k | 0 <= k < i :: |tables[k].nextHop| == g.n
      invariant forall k, m | 0 <= k < m < i :: tables[k] != tables[m]
      invariant forall k | 0 <= k < i :: Keeps(adjacent[k], Succs(tables[k].nextHop))
      invariant forall k | 0 <= k < i :: Tabled(tables[k], adjacent[k], fix) && TurnsOk(tables[k])
    {
      assert RowClosed(g, adjacent[i], i);
      ClosedRowFills(g, adjacent[i], i);
      var table := MakeTable(adjacent[i], fix);
      tables := tables + [table];
    }
  }

  method MakeTable(row: Row, fix: bool) returns (table: RoutingTable)
    requires (forall j | 0 <= j < |row| :: row[j] != []) && (fix ==> forall j | 0 <= j < |row| :: PortsOk(row[j]))
    ensures fresh(table) && Tabled(table, row, fix) && TurnsOk(table) && Keeps(row, Succs(table.nextHop))
  {
    hide PortsOk;
    table := new RoutingTable(fix, |row|);
    table.Fill(row);
    forall d | 0 <= d < |row|
      ensures fix ==> |table.nextHop[d].succs| == 1
    {
      assert fix ==> Fixed(table.nextHop, row, d);
    }
  }

  ghost function TurnOf(tables: seq<RoutingTable>, at: nat, dst: nat): nat
    requires InTurn(tables, |tables|) && at < |tables| && dst < |tables|
    reads tables
  {
    tables[at].nextHop[dst].prevTurn
  }

  ghost function Turns(tables: seq<RoutingTable>): (ts: seq<seq<nat>>)
    requires InTurn(tables, |tables|)
    reads tables
    ensures |ts| == |tables| && forall i | 0 <= i < |ts| :: |ts[i]| == |tables|
    ensures forall i, d | 0 <= i < |ts| && 0 <= d < |tables| :: ts[i][d] == tables[i].nextHop[d].prevTurn
  {
    seq(|tables|, i requires 0 <= i < |tables| && InTurn(tables, |tables|) reads tables =>
      seq(|tables|, d requires 0 <= d < |tables| && InTurn(tables, |tables|) reads tables =>
        tables[i].nextHop[d].prevTurn))
  }

  // The next wire in turn; what the tables keep stays, and so do all other turns.
  method Forward(tables: seq<RoutingTable>, at: nat, dst: nat) returns (wire: Wire)
    requires InTurn(tables, |tables|) && at < |tables| && dst < |tables|
    requires KeptBy(tables)[at][dst] != []
    modifies tables[at]
    ensures InTurn(tables, |tables|) && KeptBy(tables) == old(KeptBy(tables))
    ensures wire in KeptBy(tables)[at][dst]
    ensures var n := |KeptBy(tables)[at][dst]|;
            && TurnOf(tables, at, dst) == Turn(old(TurnOf(tables, at, dst)), n) < n
            && wire == KeptBy(tables)[at][dst][TurnOf(tables, at, dst)]
    ensures forall i: nat, d: nat | i < |tables| && d < |tables| && !(i == at && d == dst) ::
        TurnOf(tables, i, d) == old(TurnOf(tables, i, d))
  {
    ghost var kept := KeptBy(tables);
    wire := tables[at].GetWire(dst);
    assert wire in kept[at][dst];
    forall i | 0 <= i < |tables|
      ensures Succs(tables[i].nextHop) == kept[i]
    {
      assert i != at ==> tables[i] != tables[at];
    }
  }

  // A router at, and the destination of a message that it forwards.
  datatype Ask = Ask(at: nat, dst: nat)

  // The wires handed out to one router for one destination, in order.
  ghost function Picks(asks: seq<Ask>, wires: seq<Wire>, a: Ask): seq<Wire>
    requires |asks| == |wires|
  {
    if asks == [] then [] else
      var n := |asks| - 1;
      Picks(asks[..n], wires[..n], a) + if asks[n] == a then [wires[n]] else []
  }

  ghost predicate Known(tables: seq<RoutingTable>, a: Ask)
    reads tables
  {
    a.at < |tables| && a.dst < |tables| && a.dst < |tables[a.at].nextHop| && KeptBy(tables)[a.at][a.dst] != []
  }

  // Since turn t0, router a.at has picked wires for a.dst in turn.
  ghost predicate Rotated(tables: seq<RoutingTable>, t0: nat, asks: seq<Ask>, wires: seq<Wire>, a: Ask)
    requires |asks| == |wires| && InTurn(tables, |tables|) && Known(tables, a)
    reads tables
  {
    var ws, picks := KeptBy(tables)[a.at][a.dst], Picks(asks, wires, a);
    Rotates(ws, t0, picks) && TurnOf(tables, a.at, a.dst) == TurnAfter(t0, |ws|, |picks|)
  }

  ghost predicate AllRotated(tables: seq<RoutingTable>, start: seq<seq<nat>>, asks: seq<Ask>, wires: seq<Wire>)
    requires |asks| == |wires| && InTurn(tables, |tables|)
    reads tables
  {
    && |start| == |tables| && (forall i | 0 <= i < |start| :: |start[i]| == |tables|)
    && forall a: Ask | Known(tables, a) :: Rotated(tables, start[a.at][a.dst], asks, wires, a)
  }

  lemma PicksPush(asks: seq<Ask>, wires: seq<Wire>, a: Ask, w: Wire, x: Ask)
    requires |asks| == |wires|
    ensures Picks(asks + [a], wires + [w], x) == Picks(asks, wires, x) + if a == x then [w] else []
  {
    assert (asks + [a])[..|asks|] == asks && (wires + [w])[..|asks|] == wires;
  }

  lemma RotatesOn(ws: seq<Wire>, t0: nat, picks: seq<Wire>, w: Wire)
    requires Rotates(ws, t0, picks) && PickedAt(ws, t0, w, |picks|)
    ensures Rotates(ws, t0, picks + [w])
  {
  }

  method Next(tables: seq<RoutingTable>, a: Ask, ghost start: seq<seq<nat>>, ghost asks: seq<Ask>,
      ghost wires: seq<Wire>)
      returns (wire: Wire)
    requires InTurn(tables, |tables|) && Known(tables, a) && |asks| == |wires| && AllRotated(tables, start, asks, wires)
    modifies tables
    ensures InTurn(tables, |tables|) && KeptBy(tables) == old(KeptBy(tables))
    ensures AllRotated(tables, start, asks + [a], wires + [wire])
  {
    hide Picks;
    wire := Forward(tables, a.at, a.dst);
    forall x: Ask | Known(tables, x)
      ensures Rotated(tables, start[x.at][x.dst], asks + [a], wires + [wire], x)
    {
      assert old(Known(tables, x) && Rotated(tables, start[x.at][x.dst], asks, wires, x));
      PicksPush(asks, wires, a, wire, x);
      if x == a {
        var ws, t0, picks := KeptBy(tables)[a.at][a.dst], start[a.at][a.dst], Picks(asks, wires, a);
        OneTurn(t0, |ws|, |picks|);
        IsPicked(ws, t0, wire, |picks|);
        RotatesOn(ws, t0, picks, wire);
      }
    }
  }

  lemma OneTurn(t0: nat, n: nat, k: nat)
    ensures TurnAfter(t0, n, k + 1) == Turn(TurnAfter(t0, n, k), n)
  {
  }

  lemma IsPicked(ws: seq<Wire>, t0: nat, w: Wire, k: nat)
    requires TurnAfter(t0, |ws|, k + 1) < |ws| && w == ws[TurnAfter(t0, |ws|, k + 1)]
    ensures PickedAt(ws, t0, w, k)
  {
  }

  // However the routers' messages are mixed, each router uses all wires it keeps for a destination
  // equally: as many messages as there are wires take each of them once.
  method ForwardAll(tables: seq<RoutingTable>, asks: seq<Ask>) returns (wires: seq<Wire>)
    requires InTurn(tables, |tables|)
    requires forall k | 0 <= k < |asks| :: Known(tables, asks[k])
    modifies tables
    ensures InTurn(tables, |tables|) && KeptBy(tables) == old(KeptBy(tables)) && |wires| == |asks|
    ensures forall a: Ask | Known(tables, a) :: EachOnce(KeptBy(tables)[a.at][a.dst], Picks(asks, wires, a))
  {
    hide Picks, AllRotated, Turns;
    ghost var start := Turns(tables);
    wires := [];
    NothingPicked(tables, start);
    for k := 0 to |asks|
      invariant InTurn(tables, |tables|) && KeptBy(tables) == old(KeptBy(tables)) && |wires| == k
      invariant AllRotated(tables, start, asks[..k], wires)
    {
      assert old(Known(tables, asks[k]));
      var wire := Next(tables, asks[k], start, asks[..k], wires);
      wires := wires + [wire];
      assert asks[..k + 1] == asks[..k] + [asks[k]];
    }
    assert asks[..|asks|] == asks;
    forall a: Ask | Known(tables, a)
      ensures EachOnce(KeptBy(tables)[a.at][a.dst], Picks(asks, wires, a))
    {
      AllTaken(tables, start, asks, wires, a);
    }
  }

  lemma AllTaken(tables: seq<RoutingTable>, start: seq<seq<nat>>, asks: seq<Ask>, wires: seq<Wire>, a: Ask)
    requires InTurn(tables, |tables|) && |asks| == |wires| && AllRotated(tables, start, asks, wires) && Known(tables, a)
    ensures EachOnce(KeptBy(tables)[a.at][a.dst], Picks(asks, wires, a))
  {
    hide EachOnce, Picks;
    assert Rotated(tables, start[a.at][a.dst], asks, wires, a);
    RotationTakesAll(KeptBy(tables)[a.at][a.dst], start[a.at][a.dst], Picks(asks, wires, a));
  }

  lemma NothingPicked(tables: seq<RoutingTable>, start: seq<seq<nat>>)
    requires InTurn(tables, |tables|) && |start| == |tables|
    requires forall i | 0 <= i < |start| :: |start[i]| == |tables|
    requires forall i, d | 0 <= i < |start| && 0 <= d < |tables| :: start[i][d] == tables[i].nextHop[d].prevTurn
    ensures AllRotated(tables, start, [], [])
  {
    forall a: Ask | Known(tables, a)
      ensures Rotated(tables, start[a.at][a.dst], [], [], a)
    {
      assert start[a.at][a.dst] == TurnOf(tables, a.at, a.dst);
    }
  }

  // The run so far: how it goes on, and what it has been charged.
  ghost predicate UnderWay(g: Net, adjacent: seq<Row>, kept: seq<Row>, src: nat, dst: nat, r: seq<nat>, time: nat)
    requires ValidNet(g)
  {
    && IsRun(kept, src, dst, r)
    && dst < g.n == |adjacent|
    && (forall k | 0 <= k < |r| :: r[k] < g.n && |adjacent[r[k]]| == g.n && adjacent[r[k]][dst] != [])
    && time == Charged(g, adjacent, dst, r)
  }

  lemma GoesOn(g: Net, adjacent: seq<Row>, kept: seq<Row>, src: nat, dst: nat, r: seq<nat>, time: nat, w: Wire)
    requires ValidNet(g) && Sends(g, adjacent, kept, src, dst) && UnderWay(g, adjacent, kept, src, dst, r, time)
    requires var at := r[|r| - 1]; at != dst && at < |kept| && dst < |kept[at]| && w in kept[at][dst]
    ensures UnderWay(g, adjacent, kept, src, dst, r + [w.rID], time + g.crossLat + w.dist)
    ensures w.rID < |adjacent| && dst < |adjacent[w.rID]| && adjacent[w.rID][dst] != []
    ensures Remaining(adjacent, w.rID, dst) < Remaining(adjacent, r[|r| - 1], dst)
  {
    hide RowClosed, IsPath, Cost;
    var at, r' := r[|r| - 1], r + [w.rID];
    assert Hop(kept, dst, at, w.rID);
    assert IsRun(kept, src, dst, r') by {
      forall k: nat | k + 1 < |r'|
        ensures Hop(kept, dst, r'[k], r'[k + 1])
      {
        if k + 1 < |r| {
          assert Hop(kept, dst, r[k], r[k + 1]);
        }
      }
    }
    RunIsShortest(g, adjacent, kept, src, dst, r);
    assert Keeps(adjacent[at], kept[at]);
    HopAdvances(g, adjacent, at, dst, w);
    SameDistance(g, adjacent, at, dst, w);
    assert r'[..|r'| - 1] == r;
  }

  lemma SameDistance(g: Net, adjacent: seq<Row>, at: nat, dst: nat, w: Wire)
    requires ValidNet(g) && AllClosed(g, adjacent) && at < g.n && dst < g.n && at != dst
    requires |adjacent[at]| == g.n && w in adjacent[at][dst]
    ensures w.dist == adjacent[at][dst][0].dist
  {
    assert RowClosed(g, adjacent[at], at);
    assert Exact(g, at, dst, adjacent[at][dst]);
  }

  // A message goes from table to table until it is there.  It has followed a shortest path,
  // and is charged just that path if and only if its first wire led there directly.
  method Deliver(ghost g: Net, ghost adjacent: seq<Row>, tables: seq<RoutingTable>, src: nat, dst: nat, crossLat: nat)
      returns (r: seq<nat>, time: nat)
    requires ValidNet(g) && g.crossLat == crossLat && InTurn(tables, g.n)
    requires Sends(g, adjacent, KeptBy(tables), src, dst)
    modifies tables
    ensures InTurn(tables, g.n) && KeptBy(tables) == old(KeptBy(tables))
    ensures Arrives(KeptBy(tables), src, dst, r) && 2 <= |r|
    ensures Route(g, src, dst, r) && AtLeast(g, src, dst, Cost(g, r)) && Cost(g, r) == Remaining(adjacent, src, dst)
    ensures UnderWay(g, adjacent, KeptBy(tables), src, dst, r, time) && time >= crossLat + Cost(g, r)
    ensures time == crossLat + Cost(g, r) <==> r[1] == dst
  {
    hide RowClosed, IsPath, Cost, IsDistance;
    ghost var kept := KeptBy(tables);
    r, time := [src], 0;
    var at := src;
    while at != dst
      invariant InTurn(tables, g.n) && KeptBy(tables) == kept
      invariant UnderWay(g, adjacent, kept, src, dst, r, time) && at == r[|r| - 1]
      decreases Remaining(adjacent, at, dst)
    {
      assert Keeps(adjacent[at], kept[at]);
      var wire := Forward(tables, at, dst);
      GoesOn(g, adjacent, kept, src, dst, r, time, wire);
      time := time + crossLat + wire.dist;
      at := wire.rID;
      r := r + [at];
    }
    EveryMessageArrives(g, adjacent, kept, src, dst, r);
    ChargeExactForNeighbors(g, adjacent, kept, src, dst, r);
  }

  // On every one-way ring, two hops are charged one crossbar and one wire too much.
  lemma TwoHopsOvercharged(g: Net, adjacent: seq<Row>, kept: seq<Row>, wireLat: nat, i: nat, r: seq<nat>, time: nat)
    requires ValidNet(g) && IsUniRing(g, wireLat) && 3 <= g.n && i < g.n && 1 <= wireLat
    requires RingClosed(adjacent, g.n, wireLat, g.crossLat) && 2 * wireLat + g.crossLat < MAX_DIST
    requires var j := Succ(Succ(i, g.n), g.n);
             Sends(g, adjacent, kept, i, j) && Arrives(kept, i, j, r) && UnderWay(g, adjacent, kept, i, j, r, time)
    ensures r == [i, Succ(i, g.n), Succ(Succ(i, g.n), g.n)] && IsPath(g, r)
    ensures time == 3 * (g.crossLat + wireLat) && g.crossLat + Cost(g, r) == 2 * (g.crossLat + wireLat)
  {
    hide IsPath, Cost, Charged, AllClosed, AllKept, IsRun, IsUniRing, ValidLink;
    TwoHops(g, adjacent, kept, wireLat, i, r);
    assert RingCost(wireLat, g.crossLat, 1) == wireLat;
    ChargedTwice(g, adjacent, r[2], r);
  }

  lemma TwoHops(g: Net, adjacent: seq<Row>, kept: seq<Row>, wireLat: nat, i: nat, r: seq<nat>)
    requires ValidNet(g) && IsUniRing(g, wireLat) && 3 <= g.n && i < g.n && 1 <= wireLat
    requires RingClosed(adjacent, g.n, wireLat, g.crossLat) && 2 * wireLat + g.crossLat < MAX_DIST
    requires var j := Succ(Succ(i, g.n), g.n); Sends(g, adjacent, kept, i, j) && Arrives(kept, i, j, r)
    ensures r == [i, Succ(i, g.n), Succ(Succ(i, g.n), g.n)]
    ensures IsPath(g, r) && Cost(g, r) == 2 * wireLat + g.crossLat == RingCost(wireLat, g.crossLat, 2)
  {
    hide RowClosed, Hop;
    EveryMessageArrives(g, adjacent, kept, i, Succ(Succ(i, g.n), g.n), r);
    RingPath(g, wireLat, r);
    assert RingCost(wireLat, g.crossLat, 1) == wireLat;
    if 3 < |r| {
      RingCostGrows(wireLat, g.crossLat, 3, |r| - 1);
    }
    PathSuffix(g, r);
  }

  lemma ChargedTwice(g: Net, adjacent: seq<Row>, dst: nat, r: seq<nat>)
    requires |r| == 3
    requires forall k | 0 <= k < |r| :: r[k] < |adjacent| && dst < |adjacent[r[k]]| && adjacent[r[k]][dst] != []
    ensures Charged(g, adjacent, dst, r) ==
            2 * g.crossLat + Remaining(adjacent, r[0], dst) + Remaining(adjacent, r[1], dst)
  {
    var q := r[..2];
    assert Charged(g, adjacent, dst, q) ==
        Charged(g, adjacent, dst, q[..1]) + g.crossLat + Remaining(adjacent, q[0], dst);
  }

  lemma RingSends(g: Net, adjacent: seq<Row>, kept: seq<Row>, wireLat: nat, i: nat, j: nat)
    requires ValidNet(g) && AllClosed(g, adjacent) && AllKept(adjacent, kept) && i < g.n && j < g.n && i != j
    requires RingClosed(adjacent, g.n, wireLat, g.crossLat)
    requires RingCost(wireLat, g.crossLat, Ahead(i, j, g.n)) < MAX_DIST
    ensures Sends(g, adjacent, kept, i, j)
  {
  }

  // Three routers, all latencies one: the path costs three, the message is charged six.
  method Overcharge() returns (r: seq<nat>, time: nat)
    ensures r == [0, 1, 2] && time == 6
  {
    hide AllClosed, AllKept, Arrives, Route, AtLeast, UnderWay, Sends, IsPath, Cost, RingClosed, IsUniRing;
    var p, g := MakeUniRing(3, 1, 1);
    var tables := MakeTables(g, p.adjacent, false);
    ghost var kept := KeptBy(tables);
    assert RingCost(1, 1, 2) == 3;
    RingSends(g, p.adjacent, kept, 1, 0, 2);
    r, time := Deliver(g, p.adjacent, tables, 0, 2, 1);
    TwoHopsOvercharged(g, p.adjacent, kept, 1, 0, r, time);
  }

  // With wires of 20000 cycles a router two hops away is taken for unreachable, though a route exists.
  method CutOff() returns (p: RoutingPolicy, ghost g: Net, ghost route: seq<nat>)
    ensures ValidNet(g) && AllClosed(g, p.adjacent) && Route(g, 0, 2, route)
    ensures |p.adjacent| == 3 == |p.adjacent[0]| && p.adjacent[0][2] != [] && p.adjacent[0][2][0].dist == MAX_DIST
  {
    p, g := MakeUniRing(3, 20000, 1);
    route := RingWalk(g, 20000, 0, 2);
    assert RingCost(20000, 1, 2) == 40001;
  }
}
