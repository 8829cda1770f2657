/**
 Routing tables: the wires each router keeps for every destination, and the
 rotation over equal-cost wires.
 */
module RoutingTables {
  import opened Paths
  import opened Delivery
  import opened Dijkstra

  const MAX_PORTS: nat := 200

  datatype Wires4Router = Wires4Router(succs: seq<Wire>, prevTurn: nat)

  function Turn(prev: nat, size: nat): nat {
    if prev + 1 >= size then 0 else prev + 1
  }

  // The position used by the last of `calls` calls.
  function TurnAfter(prev: nat, size: nat, calls: nat): nat {
    if calls == 0 then prev else Turn(TurnAfter(prev, size, calls - 1), size)
  }

  lemma {:induction false} TurnWraps(prev: nat, size: nat, calls: nat)
    requires prev < size && calls <= size
    ensures TurnAfter(prev, size, calls) == if prev + calls < size then prev + calls else prev + calls - size
  {
    if calls > 0 {
      TurnWraps(prev, size, calls - 1);
    }
  }

  // Among any `size` consecutive calls, every position has its turn exactly once.
  lemma EveryWireInTurn(prev: nat, size: nat, pos: nat)
    requires prev < size && pos < size
    ensures exists k: nat :: 1 <= k <= size && TurnAfter(prev, size, k) == pos
    ensures forall j: nat, k: nat | 1 <= j <= size && 1 <= k <= size &&
              TurnAfter(prev, size, j) == TurnAfter(prev, size, k) :: j == k
  {
    var k0 := if pos > prev then pos - prev else pos - prev + size;
    TurnWraps(prev, size, k0);
    forall j: nat, k: nat | 1 <= j <= size && 1 <= k <= size && TurnAfter(prev, size, j) == TurnAfter(prev, size, k)
      ensures j == k
    {
      TurnWraps(prev, size, j);
      TurnWraps(prev, size, k);
    }
  }

  lemma {:induction false} TurnsAdd(prev: nat, size: nat, a: nat, k: nat)
    ensures TurnAfter(prev, size, a + k) == TurnAfter(TurnAfter(prev, size, a), size, k)
  {
    if k > 0 {
      TurnsAdd(prev, size, a, k - 1);
    }
  }

  lemma {:induction false} TurnBelow(prev: nat, size: nat, calls: nat)
    requires prev < size
    ensures TurnAfter(prev, size, calls) < size
  {
    if calls > 0 {
      TurnBelow(prev, size, calls - 1);
    }
  }

  // Wires picked one after the other from a position on.
  ghost predicate Rotates(ws: seq<Wire>, prev: nat, picks: seq<Wire>) {
    prev < |ws| && forall k | 0 <= k < |picks| :: PickedAt(ws, prev, picks[k], k)
  }

  ghost predicate PickedAt(ws: seq<Wire>, prev: nat, w: Wire, k: nat) {
    var pos := TurnAfter(prev, |ws|, k + 1);
    pos < |ws| && w == ws[pos]
  }

  // As many consecutive picks as there are wires take each of them once.
  ghost predicate EachOnce(ws: seq<Wire>, picks: seq<Wire>) {
    forall a: nat :: OnceFrom(ws, picks, a)
  }

  ghost predicate OnceFrom(ws: seq<Wire>, picks: seq<Wire>, a: nat) {
    a + |ws| <= |picks| ==> multiset(picks[a..a + |ws|]) == multiset(ws)
  }

  lemma RotationTakesAll(ws: seq<Wire>, prev: nat, picks: seq<Wire>)
    requires Rotates(ws, prev, picks)
    ensures EachOnce(ws, picks)
  {
    forall a: nat
      ensures OnceFrom(ws, picks, a)
    {
      if a + |ws| <= |picks| {
        RoundTakesAll(ws, prev, picks, a);
      }
    }
  }

  lemma RoundTakesAll(ws: seq<Wire>, prev: nat, picks: seq<Wire>, a: nat)
    requires Rotates(ws, prev, picks) && a + |ws| <= |picks|
    ensures OnceFrom(ws, picks, a)
  {
    var n, round := |ws|, picks[a..a + |ws|];
    TurnBelow(prev, n, a);
    var q := TurnAfter(prev, n, a);
    forall k | 0 <= k < n
      ensures round[k] == ws[if q + 1 + k < n then q + 1 + k else q + 1 + k - n]
    {
      assert PickedAt(ws, prev, picks[a + k], a + k);
      TurnsAdd(prev, n, a, k + 1);
      TurnWraps(q, n, k + 1);
    }
    assert round == ws[q + 1..] + ws[..q + 1];
    assert ws == ws[..q + 1] + ws[q + 1..];
  }

  // The destinations that have port p for their first wire.
  ghost function Users(hops: seq<Wires4Router>, p: nat): set<nat> {
    set i: nat | i < |hops| && hops[i].succs != [] && hops[i].succs[0].port == p
  }

  predicate UsesPort(h: Wires4Router, p: nat) { h.succs != [] && h.succs[0].port == p }

  lemma UsersPush(hops: seq<Wires4Router>, h: Wires4Router, p: nat)
    ensures |Users(hops + [h], p)| == |Users(hops, p)| + if UsesPort(h, p) then 1 else 0
  {
    var all := hops + [h];
    assert Users(all, p) == Users(hops, p) + if UsesPort(h, p) then {|hops|} else {};
  }

  // Destinations without a wire use no port.
  lemma UsersUpTo(hops: seq<Wires4Router>, j: nat, p: nat)
    requires j < |hops| && forall i | j < i < |hops| :: hops[i].succs == []
    ensures |Users(hops, p)| == |Users(hops[..j], p)| + if UsesPort(hops[j], p) then 1 else 0
  {
    UsersPush(hops[..j], hops[j], p);
    assert Users(hops, p) == Users(hops[..j] + [hops[j]], p);
  }

  // Of the wires ws, c is the last of those whose port the fewest destinations use; of wires with
  // the same port the first counts.
  ghost predicate LeastUsed(before: seq<Wires4Router>, ws: seq<Wire>, c: Wire) {
    exists m: nat :: m < |ws| && LeastAt(before, ws, c, m)
  }

  ghost predicate LeastAt(before: seq<Wires4Router>, ws: seq<Wire>, c: Wire, m: nat)
    requires m < |ws|
  {
    && c == ws[m]
    && (forall i | 0 <= i < m :: |Users(before, c.port)| <= |Users(before, ws[i].port)|)
    && forall i | m < i < |ws| :: |Users(before, c.port)| < |Users(before, ws[i].port)| || ws[i].port == c.port
  }

  // One more wire takes over if its port is another one that is used no more.
  lemma LeastUsedNext(before: seq<Wires4Router>, ws: seq<Wire>, c: Wire, w: Wire)
    requires LeastUsed(before, ws, c)
    ensures var u, v := |Users(before, c.port)|, |Users(before, w.port)|;
            LeastUsed(before, ws + [w], if w.port != c.port && v <= u then w else c)
  {
    hide Users;
    var m: nat :| m < |ws| && LeastAt(before, ws, c, m);
    var all := ws + [w];
    if w.port != c.port && |Users(before, w.port)| <= |Users(before, c.port)| {
      assert LeastAt(before, all, w, |ws|);
    } else {
      assert LeastAt(before, all, c, m);
    }
  }

  function Succs(hops: seq<Wires4Router>): Row {
    seq(|hops|, i requires 0 <= i < |hops| => hops[i].succs)
  }

  predicate PortsOk(ws: seq<Wire>) {
    forall w | w in ws :: DISABLED_PORT < w.port <= LOCAL_PORT1
  }

  // A row that shortestPaths has closed has wires for every destination, and for those that can
  // be reached every port is one the table accepts.
  lemma ClosedRowFills(g: Net, row: Row, s: nat)
    requires ValidNet(g) && s < g.n && RowClosed(g, row, s)
    ensures |row| == g.n
    ensures forall j | 0 <= j < |row| :: row[j] != [] && (row[j][0].dist < MAX_DIST ==> PortsOk(row[j]))
  {
    forall j: nat | j < |row|
      ensures row[j] != [] && (row[j][0].dist < MAX_DIST ==> PortsOk(row[j]))
    {
      if j != s {
        assert Exact(g, s, j, row[j]);
        if row[j][0].dist < MAX_DIST {
          forall w | w in row[j]
            ensures DISABLED_PORT < w.port <= LOCAL_PORT1
          {
            assert HopWire(g, s, j, w);
            HopPort(g, s, j, w);
          }
        }
      }
    }
  }

  class RoutingTable {
    const fixMessagePath: bool
    var nextHop: seq<Wires4Router>

    constructor (fix: bool, size: nat)
      ensures fixMessagePath == fix && nextHop == seq(size, _ => Wires4Router([], 0))
    {
      fixMessagePath := fix;
      nextHop := seq(size, _ => Wires4Router([], 0));
    }

    ghost predicate PortsInRange()
      reads this
    {
      forall i | 0 <= i < |nextHop| && nextHop[i].succs != [] :: DISABLED_PORT < nextHop[i].succs[0].port <= LOCAL_PORT1
    }

    // Adds a wire; with fixed paths it replaces the one wire there is if its port is less used.
    method AddNeighborWire(id: nat, wire: Wire)
      requires id < |nextHop| && (fixMessagePath ==> PortsInRange() && DISABLED_PORT < wire.port <= LOCAL_PORT1)
      modifies this`nextHop
      ensures |nextHop| == |old(nextHop)|
      ensures forall i | 0 <= i < |nextHop| && i != id :: nextHop[i] == old(nextHop[i])
      ensures fixMessagePath ==> PortsInRange()
      ensures var was := old(nextHop[id].succs);
              nextHop[id].prevTurn == old(nextHop[id].prevTurn) &&
              nextHop[id].succs ==
                if !fixMessagePath || was == [] then was + [wire]
                else if |Users(old(nextHop), was[0].port)| > |Users(old(nextHop), wire.port)| then [wire]
                else was
    {
      if fixMessagePath {
        if nextHop[id].succs != [] {
          var cntr := seq(MAX_PORTS, _ => 0);
          for i := 0 to |nextHop|
            invariant |cntr| == MAX_PORTS
            invariant forall p | 0 <= p < MAX_PORTS :: cntr[p] == |Users(nextHop[..i], p)|
          {
            assert nextHop[..i + 1] == nextHop[..i] + [nextHop[i]];
            forall p: nat | p < MAX_PORTS
              ensures |Users(nextHop[..i + 1], p)| ==
                      |Users(nextHop[..i], p)| + if UsesPort(nextHop[i], p) then 1 else 0
            {
              UsersPush(nextHop[..i], nextHop[i], p);
            }
            if nextHop[i].succs != [] {
              var p := nextHop[i].succs[0].port;
              cntr := cntr[p := cntr[p] + 1];
            }
          }
          assert nextHop[..|nextHop|] == nextHop;
          if cntr[nextHop[id].succs[0].port] > cntr[wire.port] {
            nextHop := nextHop[id := nextHop[id].(succs := [])];
          } else {
            return;
          }
        }
      }
      nextHop := nextHop[id := nextHop[id].(succs := nextHop[id].succs + [wire])];
    }

    // The next wire in turn; a fixed path always uses the first.
    method GetWire(destid: nat) returns (wire: Wire)
      requires destid < |nextHop| && nextHop[destid].succs != []
      modifies this`nextHop
      ensures var was := old(nextHop[destid]);
              var pos := if fixMessagePath then 0 else Turn(was.prevTurn, |was.succs|);
              pos < |was.succs| && wire == was.succs[pos] &&
              nextHop == old(nextHop)[destid := was.(prevTurn := pos)]
    {
      var pos := nextHop[destid].prevTurn + 1;
      if fixMessagePath || pos >= |nextHop[destid].succs| {
        pos := 0;
      }
      nextHop := nextHop[destid := nextHop[destid].(prevTurn := pos)];
      return nextHop[destid].succs[pos];
    }

    // Fills the table from one row of the matrix, as the second half of `make` does.
    method Fill(row: Row)
      requires |row| == |nextHop| && forall j | 0 <= j < |row| :: row[j] != [] && nextHop[j] == Wires4Router([], 0)
      requires fixMessagePath ==> forall j | 0 <= j < |row| :: PortsOk(row[j])
      modifies this`nextHop
      ensures |nextHop| == |row| && Keeps(row, Succs(nextHop))
      ensures forall j | 0 <= j < |row| :: nextHop[j].prevTurn == 0
      ensures !fixMessagePath ==> Succs(nextHop) == row
      ensures fixMessagePath ==> forall j | 0 <= j < |row| :: Fixed(nextHop, row, j)
    {
      hide Users, LeastUsed;
      for j := 0 to |row|
        invariant |nextHop| == |row| && (fixMessagePath ==> PortsInRange())
        invariant forall i | j <= i < |row| :: nextHop[i] == Wires4Router([], 0)
        invariant forall i | 0 <= i < j :: Filled(row[i], nextHop[i]) && (fixMessagePath ==> Fixed(nextHop, row, i))
      {
        FillOne(row, j);
      }
    }

    // All wires of one destination.
    method FillOne(row: Row, j: nat)
      requires |row| == |nextHop| && j < |row| && row[j] != [] && (fixMessagePath ==> PortsInRange() && PortsOk(row[j]))
      requires forall i | j <= i < |row| :: nextHop[i] == Wires4Router([], 0)
      modifies this`nextHop
      ensures |nextHop| == |row| && (fixMessagePath ==> PortsInRange())
      ensures forall i | 0 <= i < |row| && i != j :: nextHop[i] == old(nextHop[i])
      ensures Filled(row[j], nextHop[j]) && (fixMessagePath ==> Fixed(nextHop, row, j))
      ensures fixMessagePath ==> forall i | 0 <= i < j && old(Fixed(nextHop, row, i)) :: Fixed(nextHop, row, i)
    {
      hide Users, LeastUsed;
      ghost var before := nextHop[..j];
      for k := 0 to |row[j]|
        invariant |nextHop| == |row| && (fixMessagePath ==> PortsInRange())
        invariant forall i | 0 <= i < |row| && i != j :: nextHop[i] == old(nextHop[i])
        invariant nextHop[j].prevTurn == 0 && (k == 0 <==> nextHop[j].succs == [])
        invariant !fixMessagePath ==> nextHop[j].succs == row[j][..k]
        invariant fixMessagePath && 0 < k ==>
            |nextHop[j].succs| == 1 && LeastUsed(before, row[j][..k], nextHop[j].succs[0])
      {
        AddFixed(row[j], j, k, before);
      }
      assert row[j][..|row[j]|] == row[j];
      assert nextHop[..j] == before;
      if fixMessagePath {
        LeastIsOne(before, row[j], nextHop[j].succs[0]);
      }
      forall i | 0 <= i < j
        ensures nextHop[..i] == old(nextHop[..i])
      {
      }
    }

    method AddFixed(ws: seq<Wire>, j: nat, k: nat, ghost before: seq<Wires4Router>)
      requires j < |nextHop| && k < |ws| && nextHop[..j] == before
      requires fixMessagePath ==> PortsInRange() && PortsOk(ws)
      requires forall i | j < i < |nextHop| :: nextHop[i].succs == []
      requires nextHop[j].prevTurn == 0 && (k == 0 <==> nextHop[j].succs == [])
      requires !fixMessagePath ==> nextHop[j].succs == ws[..k]
      requires fixMessagePath && 0 < k ==> |nextHop[j].succs| == 1 && LeastUsed(before, ws[..k], nextHop[j].succs[0])
      modifies this`nextHop
      ensures |nextHop| == old(|nextHop|) && (fixMessagePath ==> PortsInRange())
      ensures forall i | 0 <= i < |nextHop| && i != j :: nextHop[i] == old(nextHop[i])
      ensures nextHop[j].prevTurn == 0 && nextHop[j].succs != []
      ensures !fixMessagePath ==> nextHop[j].succs == ws[..k + 1]
      ensures fixMessagePath ==> |nextHop[j].succs| == 1 && LeastUsed(before, ws[..k + 1], nextHop[j].succs[0])
    {
      hide Users, LeastUsed;
      assert ws[..k + 1] == ws[..k] + [ws[k]];
      if nextHop[j].succs != [] {
        UsersUpTo(nextHop, j, nextHop[j].succs[0].port);
        UsersUpTo(nextHop, j, ws[k].port);
        if fixMessagePath {
          LeastUsedNext(before, ws[..k], nextHop[j].succs[0], ws[k]);
        }
      } else {
        LeastOfOne(before, ws[..k + 1]);
      }
      AddNeighborWire(j, ws[k]);
    }

    lemma LeastOfOne(before: seq<Wires4Router>, ws: seq<Wire>)
      requires |ws| == 1
      ensures LeastUsed(before, ws, ws[0])
    {
      assert LeastAt(before, ws, ws[0], 0);
    }

    lemma LeastIsOne(before: seq<Wires4Router>, ws: seq<Wire>, c: Wire)
      requires LeastUsed(before, ws, c)
      ensures c in ws
    {
    }

    ghost predicate Filled(ws: seq<Wire>, hop: Wires4Router) {
      && hop.prevTurn == 0 && hop.succs != [] && (forall w | w in hop.succs :: w in ws)
      && if fixMessagePath then |hop.succs| == 1 else hop.succs == ws
    }
  }

  // With fixed paths a destination has one wire, chosen by how the destinations before it use ports.
  ghost predicate Fixed(hops: seq<Wires4Router>, row: Row, j: nat)
    requires j < |hops| == |row|
  {
    |hops[j].succs| == 1 && LeastUsed(hops[..j], row[j], hops[j].succs[0])
  }
}
