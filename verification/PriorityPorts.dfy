/**
 Priority-managed ports: requests wait in a queue and every cycle grants the most urgent ones,
 at most nUnits, in a drain that callbacks may feed with new requests.
 */
module PriorityPorts {
  // The id stands for the callback.
  datatype PendingRequest = PendingRequest(id: nat, priority: nat, transient: bool)

  // A grant and what was pending when it was made.
  datatype Grant = Grant(req: PendingRequest, pending: multiset<PendingRequest>)

  ghost predicate MostUrgent(r: PendingRequest, pending: multiset<PendingRequest>) {
    r in pending && forall q | q in pending :: r.priority <= q.priority
  }

  ghost predicate AllUrgent(grants: seq<Grant>) {
    forall i | 0 <= i < |grants| :: MostUrgent(grants[i].req, grants[i].pending)
  }

  ghost predicate OnlyTransient(m: multiset<PendingRequest>) {
    forall r | r in m :: r.transient
  }

  // Exactly the transient requests have left.
  ghost predicate OnlyTransientLeft(before: seq<PendingRequest>, after: seq<PendingRequest>) {
    forall r :: multiset(after)[r] == if r.transient then 0 else multiset(before)[r]
  }

  class PortPipePriority {
    const nUnits: nat
    // The heap, of which only the top is ever looked at.
    var queue: seq<PendingRequest>
    var grantedThisCycle: nat
    var grantedCycle: nat
    // All that ever came, was granted and was squashed, and the grants of grantedCycle.
    ghost var came: multiset<PendingRequest>
    ghost var went: multiset<PendingRequest>
    ghost var squashed: multiset<PendingRequest>
    ghost var grants: seq<Grant>

    ghost predicate Valid()
      reads this
    {
      && 0 < nUnits
      && came == went + squashed + multiset(queue)
      && OnlyTransient(squashed)
      && grantedThisCycle == |grants| <= nUnits && AllUrgent(grants)
    }

    constructor (n: nat)
      requires 0 < n
      ensures Valid() && nUnits == n && queue == [] && came == multiset{}
    {
      nUnits, queue, grantedThisCycle, grantedCycle := n, [], 0, 0;
      came, went, squashed, grants := multiset{}, multiset{}, multiset{}, [];
    }

    method AlignCycle(clock: nat)
      requires Valid()
      modifies `grantedCycle, `grantedThisCycle, `grants
      ensures Valid() && grantedCycle == clock
      ensures grants == if old(grantedCycle) == clock then old(grants) else []
    {
      if grantedCycle != clock {
        grantedCycle := clock;
        grantedThisCycle := 0;
        grants := [];
      }
    }

    method Schedule(r: PendingRequest)
      requires Valid()
      modifies `queue, `came
      ensures Valid() && queue == old(queue) + [r]
    {
      queue := queue + [r];
      came := came + multiset{r};
    }

    // Where the top of the heap is; among equals the heap may choose any.
    method Top() returns (k: nat)
      requires queue != []
      ensures k < |queue| && forall i | 0 <= i < |queue| :: queue[k].priority <= queue[i].priority
    {
      k := 0;
      for i := 1 to |queue|
        invariant k < i && forall j | 0 <= j < i :: queue[k].priority <= queue[j].priority
      {
        var first: bool := *;
        if queue[i].priority < queue[k].priority || (queue[i].priority == queue[k].priority && first) {
          k := i;
        }
      }
    }

    method Pop() returns (r: PendingRequest)
      requires queue != []
      modifies `queue
      ensures MostUrgent(r, multiset(old(queue))) && multiset(old(queue)) == multiset(queue) + multiset{r}
      ensures |queue| == |old(queue)| - 1
    {
      var k := Top();
      r := queue[k];
      assert queue == queue[..k] + [queue[k]] + queue[k + 1..];
      queue := queue[..k] + queue[k + 1..];
    }

    // Takes the most urgent request off the queue, to be granted.
    method Take() returns (r: PendingRequest)
      requires Valid() && queue != []
      modifies `queue, `went
      ensures Valid() && MostUrgent(r, multiset(old(queue))) && went == old(went) + multiset{r}
    {
      r := Pop();
      went := went + multiset{r};
    }

    method Charge(r: PendingRequest, ghost pending: multiset<PendingRequest>)
      requires Valid() && grantedThisCycle < nUnits && MostUrgent(r, pending)
      modifies `grantedThisCycle, `grants
      ensures Valid() && grants == old(grants) + [Grant(r, pending)]
    {
      grantedThisCycle := grantedThisCycle + 1;
      grants := grants + [Grant(r, pending)];
    }

    // The transient requests go, all others stay.
    method FlushTransient()
      requires Valid()
      modifies `queue, `squashed
      ensures Valid() && OnlyTransientLeft(old(queue), queue)
    {
      if queue == [] {
        return;
      }
      ghost var gone := Rebuild();
      squashed := squashed + gone;
    }

    method Rebuild() returns (ghost gone: multiset<PendingRequest>)
      modifies `queue
      ensures multiset(queue) + gone == multiset(old(queue)) && OnlyTransient(gone)
      ensures OnlyTransientLeft(old(queue), queue)
    {
      ghost var all := queue;
      var kept: seq<PendingRequest> := [];
      gone := multiset{};
      while queue != []
        invariant multiset(queue) + multiset(kept) + gone == multiset(all)
        invariant OnlyTransient(gone) && forall r | r in kept :: !r.transient
        decreases |queue|
      {
        var top := Pop();
        if !top.transient {
          kept := kept + [top];
        } else {
          gone := gone + multiset{top};
        }
      }
      queue := kept;
      forall r
        ensures multiset(kept)[r] == if r.transient then 0 else multiset(all)[r]
      {
        Partition(kept, gone, multiset(all), r);
      }
    }

    predicate HasPending(clock: nat)
      reads `queue, `grantedCycle, `grantedThisCycle
    {
      if queue == [] then false
      else if grantedCycle != clock then true
      else grantedThisCycle < nUnits
    }

    // How much this cycle can still grant.
    ghost function Room(clock: nat): nat
      reads `grantedCycle, `grantedThisCycle
    {
      if grantedCycle != clock then nUnits
      else if grantedThisCycle <= nUnits then nUnits - grantedThisCycle
      else 0
    }
  }

  lemma Partition(kept: seq<PendingRequest>, gone: multiset<PendingRequest>, all: multiset<PendingRequest>,
      r: PendingRequest)
    requires multiset(kept) + gone == all && OnlyTransient(gone) && forall q | q in kept :: !q.transient
    ensures multiset(kept)[r] == if r.transient then 0 else all[r]
  {
    assert r in multiset(kept) <==> r in kept;
    assert all[r] == multiset(kept)[r] + gone[r];
    if !r.transient {
      assert r !in gone;
    }
  }

  // What a callback asks for: a request on a port.
  datatype Order = Order(port: nat, req: PendingRequest)

  // Jobs of the event queue either schedule a request or squash a port's transients.
  datatype Job = Ask(port: nat, request: PendingRequest) | Squash(target: nat)

  ghost function Sum(s: seq<nat>): nat {
    if s == [] then 0 else Sum(s[..|s| - 1]) + s[|s| - 1]
  }

  lemma {:induction false} SumGrows(s: seq<nat>, t: seq<nat>)
    requires |s| == |t| && forall k | 0 <= k < |s| :: s[k] <= t[k]
    ensures Sum(s) <= Sum(t)
    ensures (exists k :: 0 <= k < |s| && s[k] < t[k]) ==> Sum(s) < Sum(t)
  {
    if s != [] {
      SumGrows(s[..|s| - 1], t[..|s| - 1]);
      if k :| 0 <= k < |s| && s[k] < t[k] {
        assert k < |s| - 1 ==> s[..|s| - 1][k] < t[..|s| - 1][k];
      }
    }
  }

  // The requests among orders that are for port q.
  ghost function For(orders: seq<Order>, q: nat): seq<PendingRequest> {
    if orders == [] then [] else
      For(orders[..|orders| - 1], q) + if orders[|orders| - 1].port == q then [orders[|orders| - 1].req] else []
  }

  lemma ForPush(orders: seq<Order>, o: Order, q: nat)
    ensures For(orders + [o], q) == For(orders, q) + if o.port == q then [o.req] else []
  {
    assert (orders + [o])[..|orders|] == orders;
  }

  ghost function AskedOf(jobs: seq<Job>, q: nat): multiset<PendingRequest> {
    if jobs == [] then multiset{} else
      AskedOf(jobs[..|jobs| - 1], q) + AskOf(jobs[|jobs| - 1], q)
  }

  lemma Regroup(a: multiset<PendingRequest>, b: multiset<PendingRequest>, c: multiset<PendingRequest>)
    ensures (a + b) + c == (a + c) + b && (a + b) + c == a + (b + c)
  {
  }

  lemma AskedPush(jobs: seq<Job>, j: Job, q: nat)
    ensures AskedOf(jobs + [j], q) == AskedOf(jobs, q) + AskOf(j, q)
  {
    assert (jobs + [j])[..|jobs|] == jobs;
  }

  ghost function AskOf(j: Job, q: nat): multiset<PendingRequest> {
    if j.Ask? && j.port == q then multiset{j.request} else multiset{}
  }

  ghost function Flat(batches: seq<seq<Job>>): seq<Job> {
    if batches == [] then [] else Flat(batches[..|batches| - 1]) + batches[|batches| - 1]
  }

  // The ports registered with the event scheduler, and what every callback asks of them.
  class EventScheduler {
    const ports: seq<PortPipePriority>
    const effects: PendingRequest -> seq<Order>
    // Every job that ran and every request that was granted, in order.
    ghost var asked: seq<Job>
    ghost var granted: seq<Order>

    ghost predicate Shape() {
      && (forall i, j | 0 <= i < j < |ports| :: ports[i] != ports[j])
      && forall r, k | 0 <= k < |effects(r)| :: effects(r)[k].port < |ports|
    }

    ghost predicate PortsValid()
      reads ports
    {
      Shape() && forall i | 0 <= i < |ports| :: ports[i].Valid()
    }

    // What the callbacks of granted requests asked of port q.
    ghost function CalledOf(grants: seq<Order>, q: nat): multiset<PendingRequest> {
      if grants == [] then multiset{} else
        CalledOf(grants[..|grants| - 1], q) + multiset(For(effects(grants[|grants| - 1].req), q))
    }

    // Port q has received just what jobs and callbacks asked of it, and granted just what is on
    // the record.
    ghost predicate Ledger(q: nat)
      requires q < |ports|
      reads `asked, `granted, ports[q]
    {
      && ports[q].came == AskedOf(asked, q) + CalledOf(granted, q)
      && ports[q].went == multiset(For(granted, q))
    }

    ghost predicate Valid()
      reads this, ports
    {
      PortsValid() && forall q | 0 <= q < |ports| :: Ledger(q)
    }

    constructor (ports: seq<PortPipePriority>, effects: PendingRequest -> seq<Order>)
      requires forall i, j | 0 <= i < j < |ports| :: ports[i] != ports[j]
      requires forall r, k | 0 <= k < |effects(r)| :: effects(r)[k].port < |ports|
      requires forall i | 0 <= i < |ports| :: ports[i].Valid() && ports[i].came == ports[i].went == multiset{}
      ensures Valid() && this.ports == ports && this.effects == effects && asked == [] && granted == []
    {
      this.ports, this.effects, asked, granted := ports, effects, [], [];
    }

    lemma CalledPush(grants: seq<Order>, g: Order, q: nat)
      ensures CalledOf(grants + [g], q) == CalledOf(grants, q) + multiset(For(effects(g.req), q))
    {
      assert (grants + [g])[..|grants|] == grants;
    }

    // Since it had the queue w and had received c, port q has received s.
    ghost predicate Got(q: nat, w: seq<PendingRequest>, c: multiset<PendingRequest>, s: seq<PendingRequest>)
      requires q < |ports|
      reads ports[q]
    {
      ports[q].queue == w + s && ports[q].came == c + multiset(s)
    }

    // Runs the callback of a granted request: it may ask any port, also the one draining.
    method Call(r: PendingRequest, ghost w: seq<seq<PendingRequest>>, ghost c: seq<multiset<PendingRequest>>)
      requires PortsValid() && |w| == |c| == |ports|
      requires forall q | 0 <= q < |ports| :: Got(q, w[q], c[q], [])
      modifies ports`queue, ports`came
      ensures PortsValid() && forall q | 0 <= q < |ports| :: Got(q, w[q], c[q], For(effects(r), q))
    {
      for k := 0 to |effects(r)|
        invariant PortsValid() && forall q | 0 <= q < |ports| :: Got(q, w[q], c[q], For(effects(r)[..k], q))
      {
        assert effects(r)[..k + 1] == effects(r)[..k] + [effects(r)[k]];
        Deliver(effects(r)[k], effects(r)[..k], w, c);
      }
      assert effects(r)[..|effects(r)|] == effects(r);
    }

    method Deliver(o: Order, ghost done: seq<Order>, ghost w: seq<seq<PendingRequest>>,
        ghost c: seq<multiset<PendingRequest>>)
      requires PortsValid() && |w| == |c| == |ports| && o.port < |ports|
      requires forall q | 0 <= q < |ports| :: Got(q, w[q], c[q], For(done, q))
      modifies ports`queue, ports`came
      ensures PortsValid() && forall q | 0 <= q < |ports| :: Got(q, w[q], c[q], For(done + [o], q))
    {
      hide For;
      var port := ports[o.port];
      port.Schedule(o.req);
      forall q | 0 <= q < |ports|
        ensures Got(q, w[q], c[q], For(done + [o], q))
      {
        ForPush(done, o, q);
        assert old(Got(q, w[q], c[q], For(done, q)));
        GotMore(w[q], c[q], For(done, q), o.req);
      }
    }

    lemma GotMore(w: seq<PendingRequest>, c: multiset<PendingRequest>, s: seq<PendingRequest>, r: PendingRequest)
      ensures (w + s) + [r] == w + (s + [r]) && s + [] == s
      ensures (c + multiset(s)) + multiset{r} == c + multiset(s + [r])
    {
    }

    // drain_pending on one port.
    method DrainPort(port: PortPipePriority, ghost p: nat, clock: nat)
      requires Valid() && p < |ports| && ports[p] == port
      modifies `granted, ports`queue, ports`came, port`went, port`grantedThisCycle, port`grantedCycle, port`grants
      ensures Valid() && !port.HasPending(clock) && port.grantedCycle == clock && old(granted) <= granted
      ensures forall q | 0 <= q < |ports| && q != p :: old(ports[q].queue) <= ports[q].queue
      ensures port.Room(clock) <= old(port.Room(clock))
      ensures old(port.HasPending(clock)) ==> port.Room(clock) < old(port.Room(clock))
      ensures old(port.grantedCycle) == clock ==> old(port.grants) <= port.grants
    {
      Align(port, p, clock);
      ghost var start, first := port.grants, port.grantedThisCycle;
      while port.queue != [] && port.grantedThisCycle < port.nUnits
        invariant Valid() && port.grantedCycle == clock && start <= port.grants && old(granted) <= granted
        invariant forall q | 0 <= q < |ports| && q != p :: old(ports[q].queue) <= ports[q].queue
        invariant first <= port.grantedThisCycle
        invariant port.grantedThisCycle == first ==> port.queue == old(port.queue)
        decreases port.nUnits - port.grantedThisCycle
      {
        GrantOne(port, p);
      }
    }

    method Align(port: PortPipePriority, ghost p: nat, clock: nat)
      requires Valid() && p < |ports| && ports[p] == port
      modifies port`grantedThisCycle, port`grantedCycle, port`grants
      ensures Valid() && port.grantedCycle == clock
      ensures port.grants == if old(port.grantedCycle) == clock then old(port.grants) else []
    {
      hide AskedOf, CalledOf, For;
      port.AlignCycle(clock);
      forall q | 0 <= q < |ports|
        ensures Ledger(q)
      {
        assert old(Ledger(q));
      }
    }

    // One grant, of a request than which nothing pending is more urgent; its callback runs.
    method GrantOne(port: PortPipePriority, ghost p: nat)
      requires Valid() && p < |ports| && ports[p] == port && port.queue != [] && port.grantedThisCycle < port.nUnits
      modifies `granted, ports`queue, ports`came, port`went, port`grantedThisCycle, port`grants
      ensures Valid() && port.grantedThisCycle == old(port.grantedThisCycle) + 1
      ensures |granted| == |old(granted)| + 1 && old(granted) <= granted && granted[|old(granted)|].port == p
      ensures port.grants == old(port.grants) + [Grant(granted[|old(granted)|].req, old(multiset(port.queue)))]
      ensures forall q | 0 <= q < |ports| && q != p ::
        ports[q].queue == old(ports[q].queue) + For(effects(granted[|old(granted)|].req), q)
    {
      hide AskedOf, CalledOf, For;
      ghost var pending := multiset(port.queue);
      var req := TakeOne(port, p);
      CallAndRecord(p, req);
      ChargeOne(port, p, req, pending);
    }

    method ChargeOne(port: PortPipePriority, ghost p: nat, req: PendingRequest, ghost pending: multiset<PendingRequest>)
      requires Valid() && p < |ports| && ports[p] == port
      requires port.grantedThisCycle < port.nUnits && MostUrgent(req, pending)
      modifies port`grantedThisCycle, port`grants
      ensures Valid() && port.grants == old(port.grants) + [Grant(req, pending)]
      ensures port.grantedThisCycle == old(port.grantedThisCycle) + 1
    {
      hide AskedOf, CalledOf, For;
      port.Charge(req, pending);
      forall q | 0 <= q < |ports|
        ensures Ledger(q)
      {
        assert old(Ledger(q));
      }
    }

    method CallAndRecord(ghost p: nat, req: PendingRequest)
      requires PortsValid() && forall q | 0 <= q < |ports| :: Taken(q, p, req, ports[q].came, ports[q].went)
      modifies `granted, ports`queue, ports`came
      ensures Valid() && granted == old(granted) + [Order(p, req)]
      ensures forall q | 0 <= q < |ports| :: ports[q].queue == old(ports[q].queue) + For(effects(req), q)
    {
      hide AskedOf, CalledOf, For;
      ghost var w, c, g := Queues(), Cames(), Wents();
      NothingYet();
      Call(req, w, c);
      Record(p, req, w, c, g);
      forall q | 0 <= q < |ports|
        ensures ports[q].queue == old(ports[q].queue) + For(effects(req), q)
      {
        assert Got(q, w[q], c[q], For(effects(req), q));
      }
    }

    lemma NothingYet()
      ensures forall q | 0 <= q < |ports| :: Got(q, Queues()[q], Cames()[q], [])
    {
    }

    ghost method Record(p: nat, req: PendingRequest, w: seq<seq<PendingRequest>>, c: seq<multiset<PendingRequest>>,
                        g: seq<multiset<PendingRequest>>)
      requires PortsValid() && |w| == |c| == |g| == |ports|
      requires forall q | 0 <= q < |ports| :: Got(q, w[q], c[q], For(effects(req), q)) && ports[q].went == g[q]
      requires forall q | 0 <= q < |ports| :: Taken(q, p, req, c[q], g[q])
      modifies `granted
      ensures Valid() && granted == old(granted) + [Order(p, req)]
    {
      hide AskedOf, CalledOf, For;
      granted := granted + [Order(p, req)];
      forall q | 0 <= q < |ports|
        ensures Ledger(q)
      {
        assert old(Taken(q, p, req, c[q], g[q]));
        assert Got(q, w[q], c[q], For(effects(req), q));
        CalledPush(old(granted), Order(p, req), q);
        ForPush(old(granted), Order(p, req), q);
        Regroup(AskedOf(asked, q), CalledOf(old(granted), q), multiset(For(effects(req), q)));
      }
    }

    method TakeOne(port: PortPipePriority, ghost p: nat) returns (req: PendingRequest)
      requires Valid() && p < |ports| && ports[p] == port && port.queue != []
      modifies port`queue, port`went
      ensures PortsValid() && MostUrgent(req, multiset(old(port.queue)))
      ensures forall q | 0 <= q < |ports| :: Taken(q, p, req, ports[q].came, ports[q].went)
    {
      hide AskedOf, CalledOf, For;
      req := port.Take();
      forall q | 0 <= q < |ports|
        ensures Taken(q, p, req, ports[q].came, ports[q].went)
      {
        assert old(Ledger(q));
      }
    }

    // The ledger of port q while request r of port p is being granted.
    ghost predicate Taken(q: nat, p: nat, r: PendingRequest, c: multiset<PendingRequest>, g: multiset<PendingRequest>)
      reads `asked, `granted
    {
      && c == AskedOf(asked, q) + CalledOf(granted, q)
      && g == multiset(For(granted, q)) + if q == p then multiset{r} else multiset{}
    }

    ghost function Wents(): (s: seq<multiset<PendingRequest>>)
      reads ports
      ensures |s| == |ports|
    {
      seq(|ports|, i requires 0 <= i < |ports| reads ports => ports[i].went)
    }

    ghost function Queues(): (s: seq<seq<PendingRequest>>)
      reads ports
      ensures |s| == |ports|
    {
      seq(|ports|, i requires 0 <= i < |ports| reads ports => ports[i].queue)
    }

    ghost function Cames(): (s: seq<multiset<PendingRequest>>)
      reads ports
      ensures |s| == |ports|
    {
      seq(|ports|, i requires 0 <= i < |ports| reads ports => ports[i].came)
    }

    ghost function Rooms(clock: nat): (s: seq<nat>)
      reads ports
      ensures |s| == |ports|
    {
      seq(|ports|, i requires 0 <= i < |ports| reads ports => ports[i].Room(clock))
    }

    ghost function Pendings(clock: nat): (s: seq<bool>)
      reads ports
      ensures |s| == |ports|
    {
      seq(|ports|, i requires 0 <= i < |ports| reads ports => ports[i].HasPending(clock))
    }

    lemma NoneDrained(clock: nat)
      ensures forall q | 0 <= q < |ports| :: Tracked(q, clock, Rooms(clock)[q], Pendings(clock)[q], false)
      ensures SomePending(clock) ==> exists q :: 0 <= q < |ports| && Pendings(clock)[q]
    {
      if p :| 0 <= p < |ports| && ports[p].HasPending(clock) {
        assert Pendings(clock)[p];
      }
    }

    ghost predicate SomePending(clock: nat)
      reads ports
    {
      exists p :: 0 <= p < |ports| && ports[p].HasPending(clock)
    }

    // Port q has no more room than at first, and less if it had something pending and has drained.
    ghost predicate Tracked(q: nat, clock: nat, room: nat, pending: bool, drained: bool)
      requires q < |ports|
      reads ports[q]
    {
      && ports[q].Room(clock) <= room
      && (pending ==> if drained then ports[q].Room(clock) < room else ports[q].HasPending(clock))
    }

    method DrainPortQueues(clock: nat)
      requires Valid()
      modifies `granted, ports
      ensures Valid() && old(granted) <= granted && Sum(Rooms(clock)) <= old(Sum(Rooms(clock)))
      ensures old(SomePending(clock)) ==> Sum(Rooms(clock)) < old(Sum(Rooms(clock)))
    {
      ghost var rooms, pending := Rooms(clock), Pendings(clock);
      NoneDrained(clock);
      for p := 0 to |ports|
        invariant Valid() && old(granted) <= granted &&
            forall q | 0 <= q < |ports| :: Tracked(q, clock, rooms[q], pending[q], q < p)
      {
        DrainTracked(p, clock, rooms, pending);
      }
      Drained(clock, rooms, pending);
    }

    lemma Drained(clock: nat, rooms: seq<nat>, pending: seq<bool>)
      requires |rooms| == |pending| == |ports|
      requires forall q | 0 <= q < |ports| :: Tracked(q, clock, rooms[q], pending[q], true)
      ensures Sum(Rooms(clock)) <= Sum(rooms)
      ensures (exists q :: 0 <= q < |ports| && pending[q]) ==> Sum(Rooms(clock)) < Sum(rooms)
    {
      ghost var after := Rooms(clock);
      forall q | 0 <= q < |ports|
        ensures after[q] <= rooms[q] && (pending[q] ==> after[q] < rooms[q])
      {
        assert Tracked(q, clock, rooms[q], pending[q], true);
      }
      SumGrows(after, rooms);
    }

    method DrainTracked(p: nat, clock: nat, ghost rooms: seq<nat>, ghost pending: seq<bool>)
      requires Valid() && p < |ports| == |rooms| == |pending|
      requires forall q | 0 <= q < |ports| :: Tracked(q, clock, rooms[q], pending[q], q < p)
      modifies `granted, ports
      ensures Valid() && old(granted) <= granted &&
          forall q | 0 <= q < |ports| :: Tracked(q, clock, rooms[q], pending[q], q < p + 1)
    {
      var port := ports[p];
      DrainPort(port, p, clock);
      forall q | 0 <= q < |ports|
        ensures Tracked(q, clock, rooms[q], pending[q], q < p + 1)
      {
        assert old(Tracked(q, clock, rooms[q], pending[q], q < p));
      }
    }

    method AnyPending(clock: nat) returns (b: bool)
      ensures b <==> SomePending(clock)
    {
      b := false;
      for p := 0 to |ports|
        invariant forall q | 0 <= q < p :: !ports[q].HasPending(clock)
      {
        if ports[p].HasPending(clock) {
          return true;
        }
      }
    }

    method RunJobs(jobs: seq<Job>)
      requires Valid() && forall k | 0 <= k < |jobs| :: JobOk(jobs[k])
      modifies `asked, ports`queue, ports`came, ports`squashed
      ensures Valid() && asked == old(asked) + jobs
    {
      for k := 0 to |jobs|
        invariant Valid() && asked == old(asked) + jobs[..k]
      {
        RunJob(jobs[k]);
      }
      assert jobs[..|jobs|] == jobs;
    }

    method RunJob(j: Job)
      requires Valid() && JobOk(j)
      modifies `asked, ports`queue, ports`came, ports`squashed
      ensures Valid() && asked == old(asked) + [j]
      ensures j.Squash? ==> OnlyTransientLeft(old(ports[j.target].queue), ports[j.target].queue)
    {
      if j.Ask? {
        RunAsk(ports[j.port], j);
      } else {
        RunSquash(ports[j.target], j);
      }
    }

    method RunAsk(port: PortPipePriority, j: Job)
      requires Valid() && j.Ask? && j.port < |ports| && ports[j.port] == port
      modifies `asked, port`queue, port`came
      ensures Valid() && asked == old(asked) + [j]
    {
      hide AskedOf, CalledOf, For;
      port.Schedule(j.request);
      asked := asked + [j];
      forall q | 0 <= q < |ports|
        ensures Ledger(q)
      {
        assert old(Ledger(q));
        AskedPush(old(asked), j, q);
        Regroup(AskedOf(old(asked), q), CalledOf(granted, q), AskOf(j, q));
      }
    }

    method RunSquash(port: PortPipePriority, j: Job)
      requires Valid() && j.Squash? && j.target < |ports| && ports[j.target] == port
      modifies `asked, port`queue, port`squashed
      ensures Valid() && asked == old(asked) + [j] && OnlyTransientLeft(old(port.queue), port.queue)
    {
      hide AskedOf, CalledOf, For;
      port.FlushTransient();
      asked := asked + [j];
      forall q | 0 <= q < |ports|
        ensures Ledger(q)
      {
        assert old(Ledger(q));
        AskedPush(old(asked), j, q);
        Regroup(AskedOf(old(asked), q), CalledOf(granted, q), AskOf(j, q));
      }
    }

    ghost predicate JobOk(j: Job) {
      match j
      case Ask(p, r) => p < |ports|
      case Squash(p) => p < |ports|
    }

    method Iterate(clock: nat, batches: seq<seq<Job>>, b: nat) returns (next: nat, progressed: bool)
      requires Valid() && b <= |batches|
      requires forall b, k | 0 <= b < |batches| && 0 <= k < |batches[b]| :: JobOk(batches[b][k])
      modifies this, ports
      ensures Valid() && old(granted) <= granted
      ensures next == (if b < |batches| then b + 1 else b) &&
          asked == old(asked) + if b < |batches| then batches[b] else []
      ensures !progressed ==> b == |batches| && !SomePending(clock)
      ensures !progressed ==> Sum(Rooms(clock)) == old(Sum(Rooms(clock)))
      ensures progressed && b == |batches| ==> Sum(Rooms(clock)) < old(Sum(Rooms(clock)))
    {
      hide AskedOf, CalledOf, For;
      next, progressed := b, false;
      if b < |batches| {
        RunJobs(batches[b]);
        next := b + 1;
        progressed := true;
      }
      var drained := DrainIfPending(clock);
      progressed := progressed || drained;
    }

    method DrainIfPending(clock: nat) returns (progressed: bool)
      requires Valid()
      modifies `granted, ports
      ensures Valid() && old(granted) <= granted && (progressed <==> old(SomePending(clock)))
      ensures !progressed ==> !SomePending(clock) && Sum(Rooms(clock)) == old(Sum(Rooms(clock)))
      ensures progressed ==> Sum(Rooms(clock)) < old(Sum(Rooms(clock)))
    {
      progressed := AnyPending(clock);
      if progressed {
        DrainPortQueues(clock);
      }
    }

    // The fixed point of a cycle: jobs, then drains, until neither has anything left.  Batch k
    // holds the jobs that are due in iteration k.  Every port is then empty or has granted all
    // it can this cycle.
    method AdvanceClock(clock: nat, batches: seq<seq<Job>>)
      requires Valid()
      requires forall b, k | 0 <= b < |batches| && 0 <= k < |batches[b]| :: JobOk(batches[b][k])
      modifies this, ports
      ensures Valid() && asked == old(asked) + Flat(batches) && old(granted) <= granted
      ensures forall p | 0 <= p < |ports| ::
        ports[p].queue == [] || (ports[p].grantedCycle == clock && ports[p].grantedThisCycle == ports[p].nUnits)
    {
      hide AskedOf, CalledOf, For, Flat;
      var b, progressed := 0, true;
      ghost var base := asked;
      EmptyFlat(batches);
      while progressed
        invariant Valid() && b <= |batches| && asked == base + Flat(batches[..b]) && old(granted) <= granted
        invariant !progressed ==> b == |batches| && !SomePending(clock)
        decreases |batches| - b, Sum(Rooms(clock)), if progressed then 1 else 0
      {
        OneMoreBatch(batches, b, base);
        b, progressed := Iterate(clock, batches, b);
      }
      assert batches[..|batches|] == batches;
    }
  }

  lemma EmptyFlat(batches: seq<seq<Job>>)
    ensures Flat(batches[..0]) == []
  {
  }

  lemma OneMoreBatch(batches: seq<seq<Job>>, b: nat, base: seq<Job>)
    requires b <= |batches|
    ensures base + Flat(batches[..if b < |batches| then b + 1 else b])
         == base + Flat(batches[..b]) + if b < |batches| then batches[b] else []
  {
    if b < |batches| {
      FlatPush(batches, b);
    }
  }

  lemma FlatPush(batches: seq<seq<Job>>, b: nat)
    requires b < |batches|
    ensures Flat(batches[..b + 1]) == Flat(batches[..b]) + batches[b]
  {
    assert batches[..b + 1][..b] == batches[..b];
  }

  // From fresh ports, cycle after cycle.
  method Simulate(units: seq<nat>, effects: PendingRequest -> seq<Order>, cycles: seq<seq<seq<Job>>>)
      returns (s: EventScheduler)
    requires forall i | 0 <= i < |units| :: 0 < units[i]
    requires forall r, k | 0 <= k < |effects(r)| :: effects(r)[k].port < |units|
    requires forall c, b, k | 0 <= c < |cycles| && 0 <= b < |cycles[c]| && 0 <= k < |cycles[c][b]| ::
        match cycles[c][b][k] case Ask(p, _) => p < |units| case Squash(p) => p < |units|
    ensures s.Valid() && |s.ports| == |units|
    ensures cycles != [] ==> forall p | 0 <= p < |s.ports| ::
        s.ports[p].queue == [] ||
        (s.ports[p].grantedCycle == |cycles| - 1 && s.ports[p].grantedThisCycle == s.ports[p].nUnits)
  {
    var ports := NewPorts(units);
    s := new EventScheduler(ports, effects);
    for c := 0 to |cycles|
      invariant s.Valid() && fresh(s) && fresh(s.ports) && |s.ports| == |units| && s.effects == effects
      invariant 0 < c ==> forall p | 0 <= p < |s.ports| ::
          s.ports[p].queue == [] ||
          (s.ports[p].grantedCycle == c - 1 && s.ports[p].grantedThisCycle == s.ports[p].nUnits)
    {
      forall b, k | 0 <= b < |cycles[c]| && 0 <= k < |cycles[c][b]|
        ensures s.JobOk(cycles[c][b][k])
      {
      }
      s.AdvanceClock(c, cycles[c]);
    }
  }

  method NewPorts(units: seq<nat>) returns (ports: seq<PortPipePriority>)
    requires forall i | 0 <= i < |units| :: 0 < units[i]
    ensures |ports| == |units| && fresh(ports) && forall i, j | 0 <= i < j < |ports| :: ports[i] != ports[j]
    ensures forall i | 0 <= i < |ports| :: ports[i].Valid() && ports[i].nUnits == units[i]
    ensures forall i | 0 <= i < |ports| :: ports[i].came == ports[i].went == multiset{}
  {
    ports := [];
    for n := 0 to |units|
      invariant |ports| == n && fresh(ports) && forall i, j | 0 <= i < j < n :: ports[i] != ports[j]
      invariant forall i | 0 <= i < n :: ports[i].Valid() && ports[i].nUnits == units[i]
      invariant forall i | 0 <= i < n :: ports[i].came == ports[i].went == multiset{}
    {
      var port := new PortPipePriority(units[n]);
      ports := ports + [port];
    }
  }
}
