/**
 The tree of setState messages: a request that must change state above waits for one
 acknowledgement per message it sent, and is resumed by the last one.
 */
module AckTree {
  datatype MsgType = Req | ReqAck | SetState | SetStateAck | Disp

  // What the last acknowledgement schedules.
  datatype Resume = Nothing | RedoReq | RedoReqAck | RedoSetStateAck

  const MAXPENDING: nat := 0x7FFF

  class MemRequest {
    const id: nat
    var mt: MsgType
    var pendingSetStateAck: int
    var setStateAckOrig: MemRequest?
    var needsDisp: bool
    // Fan-outs begun and fan-outs resumed, and the needsDisp of the children acknowledged so far.
    ghost var started: nat
    ghost var resumed: nat
    ghost var acked: seq<bool>

    constructor (id: nat, mt: MsgType)
      ensures this.id == id && this.mt == mt && pendingSetStateAck == 0 && setStateAckOrig == null
      ensures !needsDisp && started == resumed == 0 && acked == []
    {
      this.id, this.mt, pendingSetStateAck, setStateAckOrig := id, mt, 0, null;
      needsDisp, started, resumed, acked := false, 0, 0, [];
    }

    method AddPendingSetStateAck(mreq: MemRequest)
      requires mreq.id < id && (mreq.mt == SetState || mreq.mt == Req || mreq.mt == ReqAck) && mt == SetState
      requires setStateAckOrig == null && 0 <= mreq.pendingSetStateAck < MAXPENDING
      modifies this`setStateAckOrig, mreq`pendingSetStateAck, mreq`started
      ensures setStateAckOrig == mreq && mreq.pendingSetStateAck == old(mreq.pendingSetStateAck) + 1
      ensures mreq.started == old(mreq.started) + if old(mreq.pendingSetStateAck) == 0 then 1 else 0
    {
      if mreq.pendingSetStateAck == 0 {
        mreq.started := mreq.started + 1;
      }
      mreq.pendingSetStateAck := mreq.pendingSetStateAck + 1;
      setStateAckOrig := mreq;
    }

    method ConvertToSetStateAck(needsDisp: bool)
      requires mt == SetState
      modifies `mt, `needsDisp
      ensures mt == SetStateAck && this.needsDisp == needsDisp
    {
      mt := SetStateAck;
      this.needsDisp := needsDisp;
    }

    method SetStateAckDone(ghost orig: MemRequest?) returns (r: Resume)
      requires orig == setStateAckOrig
      requires orig != null ==> orig != this && orig.pendingSetStateAck > 0
      requires orig != null ==> orig.mt == SetState || orig.mt == Req || orig.mt == ReqAck
      modifies `setStateAckOrig, orig
      ensures setStateAckOrig == null && mt == old(mt) && needsDisp == old(needsDisp)
      ensures orig == null ==> r == Nothing
      ensures orig != null ==> Acknowledged(orig, old(orig.pendingSetStateAck), old(orig.mt), old(orig.needsDisp), r)
      ensures orig != null && old(orig.pendingSetStateAck) > 1 ==> r == Nothing
      ensures orig != null && old(orig.pendingSetStateAck) == 1 ==>
        r == if old(orig.mt) == Req then RedoReq else if old(orig.mt) == ReqAck then RedoReqAck else RedoSetStateAck
      ensures orig != null ==> orig.setStateAckOrig == old(orig.setStateAckOrig) && orig.started == old(orig.started)
      ensures orig != null ==> orig.acked == old(orig.acked) + [needsDisp]
      ensures orig != null ==> orig.resumed == old(orig.resumed) + if r == Nothing then 0 else 1
    {
      var o := setStateAckOrig;
      if o == null {
        return Nothing;
      }
      if o.mt == SetState {
        o.needsDisp := o.needsDisp || needsDisp;
      }
      o.acked := o.acked + [needsDisp];
      setStateAckOrig := null;
      o.pendingSetStateAck := o.pendingSetStateAck - 1;
      r := Nothing;
      if o.pendingSetStateAck <= 0 {
        o.resumed := o.resumed + 1;
        if o.mt == Req {
          r := RedoReq;
        } else if o.mt == ReqAck {
          r := RedoReqAck;
        } else {
          o.ConvertToSetStateAck(o.needsDisp);
          r := RedoSetStateAck;
        }
      }
    }

    // The parent after one more acknowledgement from this child.
    ghost predicate Acknowledged(o: MemRequest, pending: int, was: MsgType, disp: bool, r: Resume)
      reads this, o
    {
      && o.pendingSetStateAck == pending - 1
      && o.needsDisp == (disp || (was == SetState && needsDisp))
      && (pending > 1 ==> r == Nothing && o.mt == was)
      && (pending == 1 && was == Req ==> r == RedoReq && o.mt == was)
      && (pending == 1 && was == ReqAck ==> r == RedoReqAck && o.mt == was)
      && (pending == 1 && was == SetState ==> r == RedoSetStateAck && o.mt == SetStateAck)
    }
  }

  // How many messages wait to acknowledge to p.
  ghost function Count(parents: seq<MemRequest?>, p: MemRequest): nat {
    if parents == [] then 0 else
      Count(parents[..|parents| - 1], p) + if parents[|parents| - 1] == p then 1 else 0
  }

  lemma CountPush(parents: seq<MemRequest?>, q: MemRequest?, p: MemRequest)
    ensures Count(parents + [q], p) == Count(parents, p) + if q == p then 1 else 0
  {
    assert (parents + [q])[..|parents|] == parents;
  }

  lemma {:induction false} CountSet(parents: seq<MemRequest?>, i: nat, v: MemRequest?, p: MemRequest)
    requires i < |parents|
    ensures Count(parents[i := v], p)
         == Count(parents, p) - (if parents[i] == p then 1 else 0) + if v == p then 1 else 0
  {
    var n := |parents| - 1;
    if i < n {
      CountSet(parents[..n], i, v, p);
      assert parents[i := v][..n] == parents[..n][i := v];
    } else {
      assert parents[i := v][..n] == parents[..n];
    }
  }

  lemma {:induction false} CountPositive(parents: seq<MemRequest?>, i: nat, p: MemRequest)
    requires i < |parents| && parents[i] == p
    ensures Count(parents, p) > 0
  {
    var n := |parents| - 1;
    if i < n {
      CountPositive(parents[..n], i, p);
    }
  }

  lemma {:induction false} CountWitness(parents: seq<MemRequest?>, p: MemRequest) returns (i: nat)
    requires Count(parents, p) > 0
    ensures i < |parents| && parents[i] == p
  {
    var n := |parents| - 1;
    if parents[n] == p {
      i := n;
    } else {
      i := CountWitness(parents[..n], p);
    }
  }

  // All messages ever created, in order.
  class Messages {
    var currentId: nat
    var live: seq<MemRequest>
    ghost var parents: seq<MemRequest?>

    constructor ()
      ensures Valid() && live == []
    {
      currentId, live, parents := 0, [], [];
    }

    ghost predicate Valid()
      reads this, live
    {
      && |live| == |parents| && Ordered()
      && forall i | 0 <= i < |live| :: Node(i)
    }

    // Identifiers grow in order of creation, so no two messages share one.
    ghost predicate Ordered()
      reads `live, `currentId
    {
      && (forall i | 0 <= i < |live| :: live[i].id < currentId)
      && forall i, j | 0 <= i < j < |live| :: live[i].id < live[j].id
    }

    ghost predicate Node(i: nat)
      requires i < |live| == |parents|
      reads this, live[i]
    {
      var r := live[i];
      && r.setStateAckOrig == parents[i]
      && r.pendingSetStateAck == Count(parents, r)
      && Link(r, parents[i])
      && (r.pendingSetStateAck > 0 ==> r.mt == Req || r.mt == ReqAck || r.mt == SetState)
      && r.started == r.resumed + (if r.pendingSetStateAck > 0 then 1 else 0)
      && (r.mt == SetState ==> r.needsDisp == (true in r.acked))
    }

    // A child is younger than its parent, so waiting never goes round in a circle.
    ghost predicate Link(r: MemRequest, p: MemRequest?)
      reads `live, r`mt
    {
      p != null ==> p in live && p.id < r.id && (r.mt == SetState || r.mt == SetStateAck)
    }

    method Create(mt: MsgType) returns (r: MemRequest)
      requires Valid()
      modifies this
      ensures Valid() && fresh(r) && live == old(live) + [r] && parents == old(parents) + [null]
      ensures r.mt == mt && r.pendingSetStateAck == 0 && r.setStateAckOrig == null && r.started == 0
      ensures forall q | q in old(live) :: q.id < r.id
    {
      r := new MemRequest(currentId, mt);
      NobodyWaitsFor(r);
      CountPush(parents, null, r);
      ghost var before := parents;
      currentId := currentId + 1;
      forall i | 0 <= i < |live|
        ensures Count(before + [null], live[i]) == Count(before, live[i])
      {
        CountPush(before, null, live[i]);
      }
      live := live + [r];
      parents := parents + [null];
      forall i | 0 <= i < |live|
        ensures Node(i)
      {
        if i < |live| - 1 {
          assert old(Node(i));
        }
      }
    }

    lemma {:induction false} NoneEqual(ps: seq<MemRequest?>, r: MemRequest)
      requires forall i | 0 <= i < |ps| :: ps[i] != r
      ensures Count(ps, r) == 0
    {
      if ps != [] {
        NoneEqual(ps[..|ps| - 1], r);
      }
    }

    lemma NobodyWaitsFor(r: MemRequest)
      requires Valid() && r !in live
      ensures Count(parents, r) == 0
    {
      forall i | 0 <= i < |parents|
        ensures parents[i] != r
      {
        assert Node(i);
      }
      NoneEqual(parents, r);
    }

    lemma Different(i: nat, j: nat)
      requires Ordered() && i < |live| && j < |live| && i != j
      ensures live[i] != live[j]
    {
      if i < j {
        assert live[i].id < live[j].id;
      } else {
        assert live[j].id < live[i].id;
      }
    }

    // One message of a fan-out: createSetState and addPendingSetStateAck.
    method SendSetState(mreq: MemRequest, ghost at: nat) returns (breq: MemRequest)
      requires Valid() && at < |live| && live[at] == mreq && mreq.pendingSetStateAck < MAXPENDING
      requires mreq.mt == SetState || mreq.mt == Req || mreq.mt == ReqAck
      modifies this, mreq`pendingSetStateAck, mreq`started
      ensures Valid() && fresh(breq) && live == old(live) + [breq] && parents == old(parents) + [mreq]
      ensures breq.mt == SetState && breq.pendingSetStateAck == 0
      ensures mreq.pendingSetStateAck == old(mreq.pendingSetStateAck) + 1
      ensures mreq.started == old(mreq.started) + if old(mreq.pendingSetStateAck) == 0 then 1 else 0
    {
      breq := Create(SetState);
      Different(at, |live| - 1);
      Attach(breq, mreq, at, |live| - 1);
    }

    method Attach(breq: MemRequest, mreq: MemRequest, ghost at: nat, ghost i: nat)
      requires Valid() && at < i < |live| && live[at] == mreq && live[i] == breq && parents[i] == null
      requires mreq.pendingSetStateAck < MAXPENDING && breq.mt == SetState
      requires mreq.mt == SetState || mreq.mt == Req || mreq.mt == ReqAck
      modifies `parents, breq`setStateAckOrig, mreq`pendingSetStateAck, mreq`started
      ensures Valid() && parents == old(parents)[i := mreq]
      ensures mreq.pendingSetStateAck == old(mreq.pendingSetStateAck) + 1
      ensures mreq.started == old(mreq.started) + if old(mreq.pendingSetStateAck) == 0 then 1 else 0
    {
      Different(at, i);
      assert Node(at) && Node(i);
      AttachedCounts(i, mreq);
      forall k | 0 <= k < |live| && k != at && k != i
        ensures live[k] != breq && live[k] != mreq
      {
        Different(k, at);
        Different(k, i);
      }
      label Linked:
      breq.AddPendingSetStateAck(mreq);
      parents := parents[i := mreq];
      forall k | 0 <= k < |live|
        ensures Node(k)
      {
        assert old@Linked(Node(k));
      }
    }

    lemma AttachedCounts(i: nat, p: MemRequest)
      requires Valid() && i < |live| && parents[i] == null
      ensures forall k | 0 <= k < |live| ::
        Count(parents[i := p], live[k]) == Count(parents, live[k]) + if live[k] == p then 1 else 0
    {
      forall k | 0 <= k < |live|
        ensures Count(parents[i := p], live[k]) == Count(parents, live[k]) + if live[k] == p then 1 else 0
      {
        CountSet(parents, i, p, live[k]);
      }
    }

    // sendSetStateAll: one message to every upper node.
    method SendSetStateAll(upNodes: seq<nat>, mreq: MemRequest, ghost at: nat) returns (conta: nat)
      requires Valid() && at < |live| && live[at] == mreq && mreq.pendingSetStateAck == 0
      requires mreq.mt == SetState && |upNodes| <= MAXPENDING
      modifies this, mreq`pendingSetStateAck, mreq`started
      ensures Valid() && conta == |upNodes| == mreq.pendingSetStateAck && Grown(old(live), old(parents), conta, mreq)
      ensures forall k | |old(live)| <= k < |live| :: fresh(live[k])
      ensures mreq.started == old(mreq.started) + if conta == 0 then 0 else 1
    {
      conta := 0;
      while conta < |upNodes|
        invariant Valid() && conta <= |upNodes| && conta == mreq.pendingSetStateAck
        invariant Grown(old(live), old(parents), conta, mreq)
        invariant forall k | |old(live)| <= k < |live| :: fresh(live[k])
        invariant mreq.started == old(mreq.started) + if conta == 0 then 0 else 1
      {
        var breq := SendSetState(mreq, at);
        conta := conta + 1;
      }
    }

    // The nodes other than the one to skip.
    ghost function Others(upNodes: seq<nat>, skip: nat): (n: nat)
      ensures n <= |upNodes|
    {
      if upNodes == [] then 0 else
        Others(upNodes[..|upNodes| - 1], skip) + if upNodes[|upNodes| - 1] == skip then 0 else 1
    }

    // With distinct upper nodes, all but the one to skip.
    lemma {:induction false} OthersAre(upNodes: seq<nat>, skip: nat)
      requires forall i, j | 0 <= i < j < |upNodes| :: upNodes[i] != upNodes[j]
      ensures Others(upNodes, skip) == |upNodes| - if skip in upNodes then 1 else 0
    {
      if upNodes != [] {
        var n := |upNodes| - 1;
        OthersAre(upNodes[..n], skip);
        assert upNodes == upNodes[..n] + [upNodes[n]];
      }
    }

    // sendSetStateOthers: a single upper node needs no message, whichever it is.
    method SendSetStateOthers(upNodes: seq<nat>, skip: nat, mreq: MemRequest, ghost at: nat) returns (conta: nat)
      requires Valid() && at < |live| && live[at] == mreq && mreq.pendingSetStateAck == 0
      requires (mreq.mt == Req || mreq.mt == ReqAck) && |upNodes| <= MAXPENDING
      modifies this, mreq`pendingSetStateAck, mreq`started
      ensures Valid() && conta == mreq.pendingSetStateAck && Grown(old(live), old(parents), conta, mreq)
      ensures forall k | |old(live)| <= k < |live| :: fresh(live[k])
      ensures conta == if |upNodes| <= 1 then 0 else Others(upNodes, skip)
      ensures (forall i, j | 0 <= i < j < |upNodes| :: upNodes[i] != upNodes[j]) ==>
          conta == if |upNodes| <= 1 then 0 else |upNodes| - if skip in upNodes then 1 else 0
      ensures mreq.started == old(mreq.started) + if conta == 0 then 0 else 1
    {
      if |upNodes| <= 1 {
        return 0;
      }
      if forall i, j | 0 <= i < j < |upNodes| :: upNodes[i] != upNodes[j] {
        OthersAre(upNodes, skip);
      }
      conta := 0;
      for i := 0 to |upNodes|
        invariant Valid() && conta == mreq.pendingSetStateAck == Others(upNodes[..i], skip)
        invariant Grown(old(live), old(parents), conta, mreq)
        invariant forall k | |old(live)| <= k < |live| :: fresh(live[k])
        invariant mreq.started == old(mreq.started) + if conta == 0 then 0 else 1
      {
        assert upNodes[..i + 1][..i] == upNodes[..i];
        if upNodes[i] != skip {
          var breq := SendSetState(mreq, at);
          conta := conta + 1;
        }
      }
      assert upNodes[..|upNodes|] == upNodes;
    }

    // n new messages, all to be acknowledged to p.
    ghost predicate Grown(l: seq<MemRequest>, ps: seq<MemRequest?>, n: nat, p: MemRequest)
      reads `live, `parents
    {
      && |live| == |l| + n && l <= live
      && parents == ps + seq(n, _ => p)
    }

    // A message that had to ask nobody turns into its own acknowledgement.
    method ConvertLeaf(r: MemRequest, ghost i: nat, needsDisp: bool)
      requires Valid() && i < |live| && live[i] == r && r.mt == SetState && r.pendingSetStateAck == 0
      modifies r`mt, r`needsDisp
      ensures Valid() && r.mt == SetStateAck && r.needsDisp == needsDisp
    {
      assert Node(i);
      DifferentFrom(i);
      label Before:
      r.ConvertToSetStateAck(needsDisp);
      forall k | 0 <= k < |live|
        ensures Node(k)
      {
        assert old@Before(Node(k));
      }
    }

    lemma DifferentFrom(i: nat)
      requires Ordered() && i < |live|
      ensures forall k | 0 <= k < |live| && k != i :: live[k] != live[i]
    {
      forall k | 0 <= k < |live| && k != i
        ensures live[k] != live[i]
      {
        Different(k, i);
      }
    }

    // An acknowledgement reaches the end of its way: the parent hears of it, and the message
    // can be recycled because nobody waits to acknowledge to it.
    method Ack(r: MemRequest, ghost i: nat) returns (resume: Resume)
      requires Valid() && i < |live| && live[i] == r && r.mt == SetStateAck
      modifies `parents, r`setStateAckOrig, parents[i]
      ensures Valid() && parents == old(parents)[i := null] && Count(parents, r) == 0
      ensures old(parents[i]) == null ==> resume == Nothing
      ensures old(parents[i]) != null ==>
        r.Acknowledged(old(parents[i]), old(Count(parents, parents[i])), old(parents[i].mt),
            old(parents[i].needsDisp), resume)
      ensures old(parents[i]) != null && old(Count(parents, parents[i])) > 1 ==> resume == Nothing
      ensures old(parents[i]) != null && old(Count(parents, parents[i])) == 1 ==>
        (var was := old(parents[i].mt);
         resume == if was == Req then RedoReq else if was == ReqAck then RedoReqAck else RedoSetStateAck)
    {
      ghost var p := parents[i];
      assert Node(i);
      DifferentFrom(i);
      DroppedCounts(i);
      if p != null {
        AckParent(i);
      }
      label Before:
      resume := r.SetStateAckDone(p);
      parents := parents[i := null];
      forall k | 0 <= k < |live|
        ensures Node(k)
      {
        assert old@Before(Node(k));
      }
    }

    lemma DroppedCounts(i: nat)
      requires Valid() && i < |live|
      ensures forall k | 0 <= k < |live| ::
        Count(parents[i := null], live[k]) == Count(parents, live[k]) - if live[k] == parents[i] then 1 else 0
    {
      forall k | 0 <= k < |live|
        ensures Count(parents[i := null], live[k]) == Count(parents, live[k]) - if live[k] == parents[i] then 1 else 0
      {
        CountSet(parents, i, null, live[k]);
      }
    }

    lemma AckParent(i: nat)
      requires Valid() && i < |live| && parents[i] != null
      ensures parents[i] in live && parents[i] != live[i] && Count(parents, parents[i]) > 0
      ensures parents[i].pendingSetStateAck == Count(parents, parents[i])
      ensures parents[i].mt == SetState || parents[i].mt == Req || parents[i].mt == ReqAck
    {
      assert Node(i);
      var k :| 0 <= k < |live| && live[k] == parents[i];
      assert Node(k);
      CountPositive(parents, i, parents[i]);
    }

    // While anybody waits, some message that has not been acknowledged waits for nobody.
    lemma SomeoneCanAck(i: nat) returns (k: nat)
      requires Valid() && i < |live| && parents[i] != null
      ensures k < |live| && parents[k] != null && CanAck(k)
      decreases |live| - i
    {
      assert Node(i);
      if live[i].pendingSetStateAck == 0 {
        k := i;
      } else {
        var j := CountWitness(parents, live[i]);
        assert Node(j);
        k := SomeoneCanAck(j);
      }
    }

    ghost function Waiting(ps: seq<MemRequest?>): nat {
      if ps == [] then 0 else Waiting(ps[..|ps| - 1]) + if ps[|ps| - 1] == null then 0 else 1
    }

    lemma {:induction false} OneLessWaiting(ps: seq<MemRequest?>, i: nat)
      requires i < |ps| && ps[i] != null
      ensures Waiting(ps[i := null]) == Waiting(ps) - 1
    {
      var n := |ps| - 1;
      if i < n {
        OneLessWaiting(ps[..n], i);
        assert ps[i := null][..n] == ps[..n][i := null];
      } else {
        assert ps[i := null][..n] == ps[..n];
      }
    }

    // Whichever message acknowledges next, whatever it has to displace, and whoever still asks
    // further nodes in between, up to budget messages: all fan-outs end, and by then every request
    // has been resumed once for each fan-out it began.
    method Drain(budget: nat)
      requires Valid()
      modifies this, live
      ensures Valid() && old(live) <= live && |live| <= |old(live)| + budget && |parents| == |live|
      ensures forall i | 0 <= i < |live| :: parents[i] == null
      ensures forall i | 0 <= i < |live| :: live[i].resumed == live[i].started && live[i].pendingSetStateAck == 0
    {
      var left := budget;
      while exists i :: 0 <= i < |live| && CanAck(i)
        invariant Valid() && old(live) <= live && 0 <= left <= budget && |live| == |old(live)| + budget - left
        invariant forall i | |old(live)| <= i < |live| :: fresh(live[i])
        decreases left, Waiting(parents)
      {
        var at: int := *;
        if 0 < left && 0 <= at < |live| && CanAsk(at) {
          var breq := SendSetState(live[at], at);
          left := left - 1;
        } else {
          AcknowledgeOne();
        }
      }
      AllEnded();
    }

    method AcknowledgeOne()
      requires Valid() && exists i :: 0 <= i < |live| && CanAck(i)
      modifies `parents, live
      ensures Valid() && Waiting(parents) < Waiting(old(parents))
    {
      var k :| 0 <= k < |live| && CanAck(k);
      var disp: bool := *;
      assert Node(k);
      OneLessWaiting(parents, k);
      AcknowledgeAt(k, disp);
    }

    lemma AllEnded()
      requires Valid() && forall i | 0 <= i < |live| :: !CanAck(i)
      ensures forall i | 0 <= i < |live| :: parents[i] == null
      ensures forall i | 0 <= i < |live| :: live[i].resumed == live[i].started && live[i].pendingSetStateAck == 0
    {
      forall i | 0 <= i < |live|
        ensures parents[i] == null
      {
        if parents[i] != null {
          var k := SomeoneCanAck(i);
        }
      }
      forall i | 0 <= i < |live|
        ensures live[i].resumed == live[i].started && live[i].pendingSetStateAck == 0
      {
        assert Node(i);
        NoneEqual(parents, live[i]);
      }
    }

    // A request, or a message that has not been acknowledged yet, can ask one more node.
    predicate CanAsk(i: nat)
      requires i < |live|
      reads this, live
    {
      && (live[i].mt == SetState || live[i].mt == Req || live[i].mt == ReqAck)
      && live[i].pendingSetStateAck < MAXPENDING
    }

    predicate CanAck(i: nat)
      requires i < |live|
      reads this, live
    {
      live[i].setStateAckOrig != null && live[i].pendingSetStateAck == 0
    }

    method AcknowledgeAt(k: nat, disp: bool)
      requires Valid() && k < |live| && parents[k] != null && live[k].pendingSetStateAck == 0
      modifies `parents, live
      ensures Valid() && parents == old(parents)[k := null]
    {
      assert Node(k);
      AckParent(k);
      if live[k].mt == SetState {
        ConvertLeaf(live[k], k, disp);
      }
      var resume := Ack(live[k], k);
    }
  }

  // A request asks all upper nodes but one; however their answers come in, and whoever they ask
  // themselves, in the end nobody waits and each fan-out has resumed its message once.
  method Simulate(upNodes: seq<nat>, skip: nat, budget: nat) returns (m: Messages, req: MemRequest)
    requires |upNodes| <= MAXPENDING
    ensures m.Valid() && req in m.live
    ensures forall i | 0 <= i < |m.live| ::
        m.live[i].resumed == m.live[i].started && m.live[i].pendingSetStateAck == 0
  {
    m := new Messages();
    req := m.Create(Req);
    var asked := m.SendSetStateOthers(upNodes, skip, req, 0);
    m.Drain(budget);
  }
}
