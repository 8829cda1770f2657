/**
 The calendar queue behind the event engine: a window of AccessSize circular
 buckets, one cycle each, and a heap for events beyond the window.
 */
module EventQueue {
  import opened Bits
  import opened Callbacks
  import opened BucketLists

  const MAX_TIME: nat := 0x1_0000_0000_0000_0000 - 1 - 1024

  // The cast to uint32_t of a difference of 64-bit times.
  function U32(x: int): nat { x % TWO32 }

  // A circular index that wraps at most once.
  function Wrap(x: nat, size: nat): nat
    requires 0 < size && x < 2 * size
  {
    if x < size then x else x - size
  }

  lemma CutLess(x: nat)
    requires 0 < U32(x)
    ensures 0 < x && U32(x - 1) == U32(x) - 1
  {
    var q := x / TWO32;
    assert x - 1 == q * TWO32 + (U32(x) - 1);
  }

  // The buckets as a value: slot p stands for one cycle of the window that starts at minTime.
  datatype Window = Window(size: nat, minTime: nat, minPos: nat, buckets: seq<seq<Callback>>, fast: set<Callback>)
  {
    ghost predicate Shape() {
      0 < size < TWO32 && |buckets| == size && minPos < size
    }

    // How many cycles ahead of minTime the cycle of slot p is.
    ghost function Ahead(p: nat): (d: nat)
      requires Shape() && p < size
      ensures d < size && Wrap(minPos + d, size) == p
    {
      if p >= minPos then p - minPos else p + size - minPos
    }

    ghost function Slot(ahead: nat): (p: nat)
      requires Shape() && ahead < size
      ensures p < size && Ahead(p) == ahead
    {
      Wrap(minPos + ahead, size)
    }

    // The distance of n as the queue sees it, cut to 32 bits.
    ghost predicate Looks(n: Callback, ahead: nat) {
      minTime <= n.time && U32(n.time - minTime) == ahead
    }

    ghost predicate Near(n: Callback) {
      minTime <= n.time && U32(n.time - minTime) < size
    }

    ghost predicate OwnCycle(p: nat)
      requires Shape() && p < size
    {
      forall n | n in buckets[p] :: n in fast && Looks(n, Ahead(p))
    }

    ghost predicate Placed(n: Callback)
      requires Shape()
    {
      Near(n) && n in buckets[Slot(U32(n.time - minTime))]
    }

    ghost predicate InOrder(p: nat)
      requires Shape() && p < size
    {
      Sorted(buckets[p]) && Distinct(buckets[p])
    }

    // Every event sits in the bucket of the cycle it seems to be for, and nowhere else.
    ghost predicate Cut() {
      && Shape()
      && (forall p: nat | p < size :: OwnCycle(p) && InOrder(p))
      && (forall n | n in fast :: Placed(n))
    }

    // Its own cycle lies within the window, so that the cut loses nothing.
    ghost predicate Real(n: Callback) {
      minTime <= n.time < minTime + size
    }

    // Every event sits in the bucket of its own cycle, and nowhere else.
    ghost predicate Valid() {
      Cut() && forall n | n in fast :: Real(n)
    }

    lemma OwnBucket(n: Callback)
      requires Valid() && n in fast
      ensures n in buckets[Slot(n.time - minTime)]
    {
      assert Placed(n) && Real(n);
    }

    lemma NoBucketNoEvent()
      requires Cut() && forall p | 0 <= p < size :: buckets[p] == []
      ensures fast == {}
    {
      assert forall n | n in fast :: Placed(n);
    }

    lemma NothingNow()
      requires Cut() && buckets[minPos] == []
      ensures forall n | n in fast :: minTime < n.time && 0 < U32(n.time - minTime)
    {
      forall n | n in fast
        ensures minTime < n.time && 0 < U32(n.time - minTime)
      {
        assert Placed(n);
      }
    }

    // n joins the bucket of the cycle it seems to be for.
    ghost function Add(n: Callback): Window
      requires Shape() && Near(n)
    {
      var p := Slot(U32(n.time - minTime));
      this.(buckets := buckets[p := Enqueue(buckets[p], n)], fast := fast + {n})
    }

    // That is its own cycle if and only if that lies in the window.
    lemma AddExactly(n: Callback)
      requires Cut() && Near(n) && n !in fast
      ensures Add(n).Cut() && (Add(n).Valid() <==> Valid() && Real(n))
    {
      AddKeepsBuckets(n);
      var w := Add(n);
      forall x | x in w.fast
        ensures w.Placed(x)
      {
        if x != n {
          assert Placed(x);
        }
      }
      assert forall x | x in fast :: x in w.fast && (Real(x) <==> w.Real(x));
      assert n in w.fast;
    }

    lemma AddKeepsBuckets(n: Callback)
      requires Cut() && Near(n) && n !in fast
      ensures var w, pos := Add(n), Slot(U32(n.time - minTime));
              && n in w.buckets[pos] && (forall x | x in buckets[pos] :: x in w.buckets[pos])
              && forall p: nat | p < size :: w.OwnCycle(p) && w.InOrder(p)
    {
      var w, pos := Add(n), Slot(U32(n.time - minTime));
      assert OwnCycle(pos) && InOrder(pos);
      EnqueueKeepsOrder(buckets[pos], n);
      hide Sorted, Distinct, Enqueue;
      forall p: nat | p < size
        ensures w.OwnCycle(p) && w.InOrder(p)
      {
        assert OwnCycle(p) && InOrder(p);
      }
    }

    // The first event of the current cycle leaves.
    ghost function Pop(): Window
      requires Shape() && buckets[minPos] != []
    {
      this.(buckets := buckets[minPos := buckets[minPos][1..]], fast := fast - {buckets[minPos][0]})
    }

    // It is the most urgent event of those that seem to be for that cycle.
    lemma PopKeeps()
      requires Cut() && buckets[minPos] != []
      ensures Pop().Cut() && (Valid() ==> Pop().Valid())
      ensures var n := buckets[minPos][0];
              n in fast && Looks(n, 0) && forall m | m in fast && Looks(m, 0) :: n.priority <= m.priority
    {
      PopKeepsBuckets();
      var w, s := Pop(), buckets[minPos];
      forall n | n in w.fast
        ensures w.Placed(n)
      {
        assert Placed(n);
      }
      forall m | m in fast && Looks(m, 0)
        ensures s[0].priority <= m.priority
      {
        assert Placed(m);
      }
      assert forall x | x in w.fast :: x in fast && (Real(x) <==> w.Real(x));
    }

    lemma PopKeepsBuckets()
      requires Cut() && buckets[minPos] != []
      ensures var n, s := buckets[minPos][0], buckets[minPos];
              && n in fast && Looks(n, 0) && (forall m | m in s :: n.priority <= m.priority && (m == n || m in s[1..]))
      ensures forall p: nat | p < size :: Pop().OwnCycle(p) && Pop().InOrder(p)
    {
      var s := buckets[minPos];
      assert OwnCycle(minPos) && InOrder(minPos);
      assert s[0] in s;
      forall p: nat | p < size
        ensures Pop().OwnCycle(p) && Pop().InOrder(p)
      {
        assert OwnCycle(p) && InOrder(p);
      }
    }

    // The window moves on one cycle once the current one is empty.
    ghost function Next(): Window
      requires Shape()
    {
      this.(minTime := minTime + 1, minPos := Wrap(minPos + 1, size))
    }

    lemma NextKeeps()
      requires Cut() && buckets[minPos] == []
      ensures Next().Cut() && (Valid() ==> Next().Valid())
      ensures forall n | n in fast :: minTime < n.time
    {
      var w := Next();
      NothingNow();
      forall n | n in fast
        ensures w.Placed(n) && (Real(n) ==> w.Real(n))
      {
        assert Placed(n);
        CutLess(n.time - minTime);
      }
      forall p: nat | p < size
        ensures w.OwnCycle(p) && w.InOrder(p)
      {
        NextOwnCycle(p);
      }
    }

    lemma NextOwnCycle(p: nat)
      requires Cut() && buckets[minPos] == [] && p < size
      ensures Next().OwnCycle(p) && Next().InOrder(p)
    {
      assert OwnCycle(p) && InOrder(p);
      forall n | n in buckets[p]
        ensures Next().Looks(n, Next().Ahead(p))
      {
        CutLess(n.time - minTime);
      }
    }
  }

  // The number of events in all buckets.
  ghost function Total(lists: seq<seq<Callback>>): nat {
    if lists == [] then 0 else |lists[|lists| - 1]| + Total(lists[..|lists| - 1])
  }

  lemma {:induction false} TotalUpdate(lists: seq<seq<Callback>>, p: nat, s: seq<Callback>)
    requires p < |lists|
    ensures Total(lists[p := s]) == Total(lists) - |lists[p]| + |s|
    decreases |lists|
  {
    var n := |lists| - 1;
    if p < n {
      TotalUpdate(lists[..n], p, s);
      assert lists[p := s][..n] == lists[..n][p := s];
    } else {
      assert lists[p := s][..n] == lists[..n];
    }
  }

  lemma {:induction false} TotalZero(lists: seq<seq<Callback>>)
    ensures Total(lists) == 0 <==> forall p | 0 <= p < |lists| :: lists[p] == []
    decreases |lists|
  {
    if lists != [] {
      TotalZero(lists[..|lists| - 1]);
    }
  }

  ghost function Members(lists: seq<seq<Callback>>): set<Callback> {
    if lists == [] then {} else Members(lists[..|lists| - 1]) + Elements(lists[|lists| - 1])
  }

  ghost function Elements(s: seq<Callback>): set<Callback> { set n | n in s }

  lemma {:induction false} DistinctSize(s: seq<Callback>)
    requires Distinct(s)
    ensures |Elements(s)| == |s|
    decreases |s|
  {
    if s != [] {
      var t := s[..|s| - 1];
      DistinctSize(t);
      assert Elements(s) == Elements(t) + {s[|s| - 1]};
    } else {
      assert Elements(s) == {};
    }
  }

  lemma {:induction false} MembersIn(lists: seq<seq<Callback>>, n: Callback)
    ensures n in Members(lists) <==> exists p :: 0 <= p < |lists| && n in lists[p]
    decreases |lists|
  {
    if lists != [] {
      MembersIn(lists[..|lists| - 1], n);
    }
  }

  lemma {:induction false} TotalCounts(lists: seq<seq<Callback>>)
    requires forall p | 0 <= p < |lists| :: Distinct(lists[p])
    requires forall p, q | 0 <= p < q < |lists| :: forall n | n in lists[p] :: n !in lists[q]
    ensures Total(lists) == |Members(lists)|
    decreases |lists|
  {
    if lists != [] {
      var init, last := lists[..|lists| - 1], lists[|lists| - 1];
      TotalCounts(init);
      DistinctSize(last);
      forall n | n in Members(init)
        ensures n !in Elements(last)
      {
        MembersIn(init, n);
      }
    }
  }

  class TQueue {
    const AccessSize: nat
    const access: Buckets
    var minTime: nat
    var minPos: nat
    var nNodes: int
    var tooFar: set<Callback>
    var minTooFar: nat

    ghost function W(): Window
      reads this, access
    {
      Window(AccessSize, minTime, minPos, access.lists, access.nodes)
    }

    // The events that were inserted and not returned yet.
    ghost function Pending(): set<Callback>
      reads this, access
    {
      access.nodes + tooFar
    }

    ghost predicate Kept()
      reads this, access, access.access, access.accessTail, access.nodes`tqNext
    {
      Counted() && W().Cut()
    }

    ghost predicate Counted()
      reads this, access, access.access, access.accessTail, access.nodes`tqNext
    {
      && 7 < AccessSize && IsPow2(AccessSize) && access.Valid() && W().Shape()
      && nNodes == Total(access.lists)
    }

    ghost predicate HeapOk()
      reads this, access
    {
      && (forall n | n in tooFar :: n !in access.nodes && minTime < n.time < MAX_TIME && minTooFar <= n.time)
    }

    // Every event is on the heap, or in the bucket of the cycle it seems to be for.
    ghost predicate Sound()
      reads this, access, access.access, access.accessTail, access.nodes`tqNext
    {
      && Kept() && HeapOk()
      && if tooFar == {} then minTooFar == MAX_TIME else exists n :: n in tooFar && n.time == minTooFar
    }

    // That is its own cycle, too.
    ghost predicate Valid()
      reads this, access, access.access, access.accessTail, access.nodes`tqNext
    {
      Sound() && W().Valid()
    }

    // size() is the number of events inserted and not returned yet.
    lemma SizeCountsPending()
      requires Sound()
      ensures nNodes + |tooFar| == |Pending()|
    {
      var lists := access.lists;
      forall p, q | 0 <= p < q < |lists|
        ensures forall n | n in lists[p] :: n !in lists[q]
      {
        assert access.Apart(p, q);
      }
      forall p | 0 <= p < |lists|
        ensures Distinct(lists[p])
      {
        assert access.ListAt(p);
      }
      TotalCounts(lists);
      forall n | n in Members(lists)
        ensures n in access.nodes
      {
        MembersIn(lists, n);
        var p: nat :| p < |lists| && n in lists[p];
        assert access.ListAt(p);
      }
      forall n | n in access.nodes
        ensures n in Members(lists)
      {
        MembersIn(lists, n);
        assert W().Placed(n);
      }
      assert Members(lists) == access.nodes;
    }

    constructor (size: nat)
      requires 7 < size < TWO32 && And(size, size - 1) == 0
      ensures Valid() && AccessSize == size && Pending() == {} && minTime == 0
      ensures fresh(access) && fresh(access.access) && fresh(access.accessTail)
    {
      AccessSize := size;
      access := new Buckets(size);
      nNodes, minTime, minPos, minTooFar, tooFar := 0, 0, 0, MAX_TIME, {};
      TotalZero(seq(size, _ => []));
      AndPredecessor(size);
    }

    // The bucket is the one so many cycles ahead as the 32-bit difference says; the window stays
    // right if and only if the time lies within it.
    method AddNode(node: Callback, time: nat)
      requires Kept() && node !in access.nodes && node.time == time
      requires minTime <= time && U32(time - minTime) < AccessSize
      modifies this`nNodes, access, access.access, access.accessTail, access.nodes`tqNext, node`tqNext
      ensures Kept() && W() == old(W().Add(node))
      ensures W().Valid() <==> old(W().Valid()) && time - minTime < AccessSize
    {
      hide And, IsPow2, Window.Valid, Window.Cut, Buckets.Valid, U32, Total;
      var pos := And(U32(minPos + time - minTime), AccessSize - 1);
      MaskedSlot(minPos, time - minTime, AccessSize);
      W().AddExactly(node);
      TotalUpdate(access.lists, pos, Enqueue(access.lists[pos], node));
      access.Add(pos, node);
      nNodes := nNodes + 1;
    }

    static lemma MaskedSlot(minPos: nat, d: nat, size: nat)
      requires IsPow2(size) && minPos < size < TWO32 && U32(d) < size
      ensures And(U32(minPos + d), size - 1) == Wrap(minPos + U32(d), size)
    {
      hide And, IsPow2;
      PowersApart(size);
      CutSum(minPos, d);
      AndWraps(minPos + U32(d), size);
    }

    static lemma CutSum(a: nat, d: nat)
      requires a + U32(d) < TWO32
      ensures U32(a + d) == a + U32(d)
    {
      var q := d / TWO32;
      assert a + d == q * TWO32 + (a + U32(d));
    }

    // Events go into the window or on the heap by the difference cut to 32 bits.  The queue stays
    // valid if and only if that cut does not bring a farther event into the window.
    method Insert(data: Callback, time: nat)
      requires Sound() && data !in Pending() && data.time == time && minTime <= time < MAX_TIME
      modifies this`nNodes, this`tooFar, this`minTooFar
      modifies access, access.access, access.accessTail, access.nodes`tqNext, data`tqNext
      ensures Sound() && Pending() == old(Pending()) + {data}
      ensures Valid() <==> old(Valid()) && (time - minTime < AccessSize || AccessSize <= U32(time - minTime))
      ensures if U32(time - minTime) < AccessSize then tooFar == old(tooFar) && W() == old(W().Add(data))
              else tooFar == old(tooFar) + {data} && W() == old(W())
    {
      hide And, IsPow2, Total, Enqueue, Sorted, Distinct, Window.Cut;
      if U32(time - minTime) < AccessSize {
        AddNode(data, time);
      } else {
        tooFar := tooFar + {data};
        if minTooFar > time {
          minTooFar := time;
        }
      }
    }

    // An event 2^32 cycles ahead lands in the bucket of the current cycle.
    method InsertWrapped(data: Callback)
      requires Valid() && data !in Pending() && data.time == minTime + TWO32 < MAX_TIME
      modifies this`nNodes, this`tooFar, this`minTooFar
      modifies access, access.access, access.accessTail, access.nodes`tqNext, data`tqNext
      ensures !Valid() && minPos < |access.lists| && data in access.lists[minPos] && data.time == minTime + TWO32
    {
      Insert(data, minTime + TWO32);
    }

    // The root of the heap; which of several earliest events it is depends on the library.
    method Front() returns (front: Callback)
      requires tooFar != {}
      ensures front in tooFar && forall n | n in tooFar :: front.time <= n.time
    {
      EarliestExists(tooFar);
      front :| front in tooFar && forall n | n in tooFar :: front.time <= n.time;
    }

    static lemma {:induction false} EarliestExists(s: set<Callback>)
      requires s != {}
      ensures exists f :: f in s && forall n | n in s :: f.time <= n.time
    {
      var x :| x in s;
      if s != {x} {
        EarliestExists(s - {x});
        var f :| f in s - {x} && forall n | n in s - {x} :: f.time <= n.time;
        assert s == (s - {x}) + {x};
        if f.time <= x.time {
          assert forall n | n in s :: f.time <= n.time;
        } else {
          assert forall n | n in s :: x.time <= n.time;
        }
      }
    }

    method MoveFront(front: Callback)
      requires Kept() && HeapOk() && front in tooFar && Near(front.time)
      modifies this`nNodes, this`tooFar
      modifies access, access.access, access.accessTail, access.nodes`tqNext, front`tqNext
      ensures Kept() && HeapOk() && tooFar == old(tooFar) - {front} && access.nodes == old(access.nodes) + {front}
      ensures Pending() == old(Pending())
      ensures W().Valid() <==> old(W().Valid()) && front.time < minTime + AccessSize
    {
      AddNode(front, front.time);
      tooFar := tooFar - {front};
    }

    predicate Near(time: nat)
      reads this`minTime
    {
      U32(time - minTime) < AccessSize
    }

    // f is the earliest of these events that is not within the window.
    ghost predicate NextBeyond(far: set<Callback>, f: Callback)
      reads this`minTime
    {
      && f in far && minTime + AccessSize <= f.time
      && forall n | n in far && minTime + AccessSize <= n.time :: f.time <= n.time
    }

    // The first event that should stay on the heap is not taken for one that has come near.
    ghost predicate Clear(far: set<Callback>)
      reads this`minTime
    {
      forall f | f in far && NextBeyond(far, f) :: !Near(f.time)
    }

    // Events that have come within reach move from the heap into the window, none is left behind,
    // and no other follows if and only if the first of the others does not look near.
    method AdjustTooFar()
      requires Sound() && tooFar != {}
      modifies this`nNodes, this`tooFar, this`minTooFar
      modifies access, access.access, access.accessTail, Pending()`tqNext
      ensures Sound() && Pending() == old(Pending())
      ensures Valid() <==> old(Valid()) && Clear(old(tooFar))
      ensures forall n | n in tooFar :: minTime + AccessSize <= n.time
    {
      var front := PullNear();
      minTooFar := if front == null then MAX_TIME else front.time;
    }

    // The earliest event that stays in the heap, if any.
    method PullNear() returns (front: Callback?)
      requires Kept() && HeapOk() && tooFar != {}
      modifies this`nNodes, this`tooFar
      modifies access, access.access, access.accessTail, Pending()`tqNext
      ensures Kept() && HeapOk() && Pending() == old(Pending())
      ensures W().Valid() <==> old(W().Valid()) && Clear(old(tooFar))
      ensures front == null <==> tooFar == {}
      ensures front != null ==> front in tooFar && minTime + AccessSize <= front.time
      ensures front != null ==> forall n | n in tooFar :: front.time <= n.time
    {
      hide Kept, HeapOk, Clear;
      ghost var ok := W().Valid();
      front := Front();
      while Near(front.time)
        invariant Kept() && HeapOk() && Pending() == old(Pending()) && Pulled(old(tooFar), ok, W().Valid())
        invariant front != null && front in tooFar && forall n | n in tooFar :: front.time <= n.time
        decreases tooFar
      {
        PullFront(front, old(tooFar), ok);
        if tooFar == {} {
          AllPulled(old(tooFar), ok, front);
          return null;
        }
        front := Front();
      }
      AllPulled(old(tooFar), ok, front);
    }

    // What is left on the heap of all that was; the window is right as long as only near events left.
    ghost predicate Pulled(was: set<Callback>, ok: bool, valid: bool)
      reads this
    {
      && tooFar <= was
      && (if valid then ok && forall n | n in was && minTime + AccessSize <= n.time :: n in tooFar
          else !ok || !Clear(was))
    }

    method PullFront(front: Callback, ghost was: set<Callback>, ghost ok: bool)
      requires Kept() && HeapOk() && Pulled(was, ok, W().Valid())
      requires front in tooFar && Near(front.time) && forall n | n in tooFar :: front.time <= n.time
      modifies this`nNodes, this`tooFar
      modifies access, access.access, access.accessTail, Pending()`tqNext
      ensures Kept() && HeapOk() && Pending() == old(Pending()) && tooFar == old(tooFar) - {front}
      ensures Pulled(was, ok, W().Valid())
    {
      hide Kept, HeapOk, Window.Valid;
      if W().Valid() && minTime + AccessSize <= front.time {
        assert NextBeyond(was, front);
      }
      MoveFront(front);
    }

    lemma AllPulled(was: set<Callback>, ok: bool, front: Callback)
      requires HeapOk() && Pulled(was, ok, W().Valid())
      requires tooFar != {} ==>
          front in tooFar && !Near(front.time) && forall n | n in tooFar :: front.time <= n.time
      ensures W().Valid() <==> ok && Clear(was)
      ensures tooFar != {} ==> minTime + AccessSize <= front.time
    {
    }

    // The head of the current bucket leaves the queue.
    method PopHead() returns (node: Callback)
      requires Sound() && access.lists[minPos] != []
      modifies this`nNodes, access, access.access
      ensures Sound() && W() == old(W().Pop()) && (old(Valid()) ==> Valid() && node.time == minTime)
      ensures node in old(access.nodes) && access.nodes == old(access.nodes) - {node} && W().Looks(node, 0)
      ensures Pending() == old(Pending()) - {node}
      ensures forall m | m in old(access.nodes) && W().Looks(m, 0) :: node.priority <= m.priority
    {
      hide And, IsPow2, Window.Cut, Buckets.Valid;
      W().PopKeeps();
      TotalUpdate(access.lists, minPos, access.lists[minPos][1..]);
      node := access.Pop(minPos);
      nNodes := nNodes - 1;
    }

    // The window moves past an empty cycle.
    method Skip()
      requires Sound() && access.lists[minPos] == [] && forall n | n in tooFar :: minTime + 1 < n.time
      modifies this`minTime, this`minPos
      ensures Sound() && minTime == old(minTime) + 1 && (old(Valid()) ==> Valid())
      ensures forall n | n in access.nodes :: minTime <= n.time
    {
      hide And, IsPow2;
      W().NextKeeps();
      AndWraps(minPos + 1, AccessSize);
      minPos := And(minPos + 1, AccessSize - 1);
      minTime := minTime + 1;
      assert W() == old(W()).Next();
    }

    // Nothing is in the window, so it can start afresh at any cycle.
    method Restart(cTime: nat)
      requires Sound() && nNodes == 0 && minTime <= cTime < MAX_TIME && forall n | n in tooFar :: cTime < n.time
      modifies this`minTime, this`minPos
      ensures Valid() && minTime == cTime && access.nodes == {}
    {
      TotalZero(access.lists);
      W().NoBucketNoEvent();
      minTime := cTime;
      minPos := 0;
    }

    // The window moves up to cTime or to the first cycle with an event.
    method Advance(cTime: nat)
      requires Sound() && minTime <= cTime && forall n | n in tooFar :: cTime < n.time
      modifies this`minTime, this`minPos
      ensures Sound() && old(minTime) <= minTime <= cTime && (old(Valid()) ==> Valid())
      ensures access.lists[minPos] == [] ==> minTime == cTime
    {
      while access.Head(minPos) == null && minTime < cTime
        invariant Sound() && old(minTime) <= minTime <= cTime && (old(Valid()) ==> Valid())
      {
        Skip();
      }
    }

    // Whether asking for a job at cTime looks at the heap.
    ghost predicate LooksFar(cTime: nat)
      reads this, access
    {
      minTooFar <= cTime && !(minTime == cTime && minPos < |access.lists| && access.lists[minPos] != [])
    }

    // The next event due at cTime, most urgent first, or null when nothing is due any more.  What
    // it returns is right and leaves the queue right if and only if the heap does not give up an
    // event too early; in any case it returns just what seems to be due.
    method NextJob(cTime: nat) returns (node: Callback?)
      requires Sound() && minTime <= cTime < minTime + AccessSize && cTime < MAX_TIME
      requires forall n | n in Pending() :: cTime <= n.time
      modifies this`nNodes, this`tooFar, this`minTooFar, this`minTime, this`minPos
      modifies access, access.access, access.accessTail, Pending()`tqNext
      ensures Sound() && old(minTime) <= minTime <= cTime
      ensures old(Valid()) ==>
          (Valid() && (node == null || node.time == cTime) <==> (old(LooksFar(cTime)) ==> old(Clear(tooFar))))
      ensures node == null ==> Pending() == old(Pending()) && forall n | n in Pending() :: cTime < n.time
      ensures node == null ==> minTime == cTime && forall n | n in access.nodes :: 0 < U32(n.time - minTime)
      ensures node != null ==> node in old(Pending()) && Pending() == old(Pending()) - {node} && W().Looks(node, 0)
      ensures node != null && node.time == cTime ==>
          minTime == cTime && forall m | m in old(Pending()) && m.time == cTime :: node.priority <= m.priority
      ensures !old(LooksFar(cTime)) ==> tooFar == old(tooFar)
    {
      hide And, IsPow2, Window.Cut, Window.Valid, Total;
      if access.Head(minPos) != null && minTime == cTime {
        node := PopHead();
        return;
      }
      if minTooFar <= cTime {
        AdjustTooFar();
      }
      node := Due(cTime);
    }

    // The same once nothing on the heap is due.
    method Due(cTime: nat) returns (node: Callback?)
      requires Sound() && minTime <= cTime < minTime + AccessSize && cTime < MAX_TIME
      requires (forall n | n in Pending() :: cTime <= n.time) && forall n | n in tooFar :: cTime < n.time
      modifies this`nNodes, this`minTime, this`minPos, access, access.access
      ensures Sound() && old(minTime) <= minTime <= cTime && tooFar == old(tooFar)
      ensures Valid() && (node == null || node.time == cTime) <==> old(Valid())
      ensures node == null ==> Pending() == old(Pending()) && forall n | n in Pending() :: cTime < n.time
      ensures node == null ==> minTime == cTime && forall n | n in access.nodes :: 0 < U32(n.time - minTime)
      ensures node != null ==> node in old(Pending()) && Pending() == old(Pending()) - {node} && W().Looks(node, 0)
      ensures node != null && node.time == cTime ==>
          minTime == cTime && forall m | m in old(Pending()) && m.time == cTime :: node.priority <= m.priority
    {
      hide And, IsPow2, Window.Cut, Window.Valid, Total;
      ghost var early: Callback? := null;
      if !Valid() {
        early := Misplaced();
      }
      if nNodes == 0 {
        NoNodes();
        Restart(cTime);
        return null;
      }
      ghost var until := minTime + AccessSize;
      Advance(cTime);
      node := TakeDue(cTime, early, until);
    }

    // What the window has at the cycle that it has advanced to.
    method TakeDue(cTime: nat, ghost early: Callback?, ghost until: nat) returns (node: Callback?)
      requires Sound() && minTime <= cTime < minTime + AccessSize && cTime < until
      requires access.lists[minPos] == [] ==> minTime == cTime
      requires (forall n | n in Pending() :: cTime <= n.time) && forall n | n in tooFar :: cTime < n.time
      requires if early == null then Valid() else early in access.nodes && until + TWO32 - AccessSize <= early.time
      modifies this`nNodes, access, access.access
      ensures Sound() && tooFar == old(tooFar)
      ensures Valid() && (node == null || node.time == cTime) <==> early == null
      ensures node == null ==> Pending() == old(Pending()) && forall n | n in Pending() :: cTime < n.time
      ensures node == null ==> minTime == cTime && forall n | n in access.nodes :: 0 < U32(n.time - minTime)
      ensures node != null ==> node in old(Pending()) && Pending() == old(Pending()) - {node} && W().Looks(node, 0)
      ensures node != null && node.time == cTime ==>
          minTime == cTime && forall m | m in old(Pending()) && m.time == cTime :: node.priority <= m.priority
    {
      hide And, IsPow2, Window.Cut, Window.Valid, Total;
      if early != null {
        StillMisplaced(early, until);
      }
      if access.Head(minPos) == null {
        NothingNow();
        return null;
      }
      node := PopHead();
      if early != null && node != early {
        StillMisplaced(early, until);
      }
    }

    lemma NoNodes()
      requires Sound() && nNodes == 0
      ensures access.nodes == {} && Valid()
    {
      TotalZero(access.lists);
      W().NoBucketNoEvent();
    }

    lemma NothingNow()
      requires Sound() && access.lists[minPos] == []
      ensures forall n | n in access.nodes :: minTime < n.time && 0 < U32(n.time - minTime)
    {
      W().NothingNow();
    }

    lemma StillMisplaced(n: Callback, until: nat)
      requires Sound() && n in access.nodes && until + TWO32 - AccessSize <= n.time && minTime < until
      ensures !Valid() && minTime + AccessSize <= n.time && until <= n.time
    {
      PowersApart(AccessSize);
    }

    // An event that seems to be in the window but is 2^32 cycles later, or more.
    lemma Misplaced() returns (n: Callback)
      requires Sound() && !Valid()
      ensures n in access.nodes && minTime + TWO32 <= n.time
    {
      n :| n in access.nodes && !W().Real(n);
      assert W().Placed(n);
    }
  }

  // Two events, each inserted rightly, 4000 and 2^32 + 4100 cycles ahead.  At cycle 4000 the first
  // has come near, the second looks as near, and so it is delivered at cycle 4100.
  method FiresEarly(a: Callback, b: Callback) returns (clock: nat, fired: Callback?)
    requires a.time == 4000 && b.time == TWO32 + 4100
    modifies a`tqNext, b`tqNext
    ensures clock == 4100 && fired == b
  {
    var q := WithBoth(a, b);
    WaitFor(q, a, b);
    TakeFirst(q, a, b);
    clock, fired := WaitForLate(q, b);
  }

  method WithBoth(a: Callback, b: Callback) returns (q: TQueue)
    requires a.time == 4000 && b.time == TWO32 + 4100
    modifies a`tqNext, b`tqNext
    ensures fresh(q) && fresh(q.access) && fresh(q.access.access) && fresh(q.access.accessTail)
    ensures q.Valid() && q.AccessSize == 256 && q.tooFar == {a, b} && q.access.nodes == {} && q.minTime == 0
  {
    hide And, IsPow2, Window.Cut, Window.Valid, Buckets.Valid, Total;
    Pow2IsPow2(8);
    assert Pow2(8) == 256;
    AndPredecessor(256);
    q := new TQueue(256);
    q.Insert(a, 4000);
    q.Insert(b, TWO32 + 4100);
  }

  method TakeFirst(q: TQueue, a: Callback, b: Callback)
    requires q.Valid() && q.AccessSize == 256 && q.tooFar == {a, b} && q.access.nodes == {} && q.minTime == 3999
    requires a.time == 4000 && b.time == TWO32 + 4100
    modifies q, q.access, q.access.access, q.access.accessTail, a`tqNext, b`tqNext
    ensures q.Sound() && q.Pending() == q.access.nodes == {b} && q.minTime == 4000
  {
    hide And, IsPow2, Window.Cut, Window.Valid, Total;
    assert q.NextBeyond(q.tooFar, b) && q.Near(b.time);
    var fired := q.NextJob(4000);
    assert fired == a;
    OnlyLate(q, a, b);
  }

  // Until cycle 3999 nothing is due.
  method WaitFor(q: TQueue, a: Callback, b: Callback)
    requires q.Valid() && q.AccessSize == 256 && q.tooFar == {a, b} && q.access.nodes == {} && q.minTime == 0
    requires a.time == 4000 && b.time == TWO32 + 4100
    modifies q, q.access, q.access.access, q.access.accessTail, a`tqNext, b`tqNext
    ensures q.Valid() && q.tooFar == {a, b} && q.access.nodes == {} && q.minTime == 3999
  {
    var clock := 0;
    while clock < 3999
      invariant q.Valid() && q.tooFar == {a, b} && q.access.nodes == {} && q.minTime == clock <= 3999
    {
      clock := clock + 1;
      assert 4000 <= q.minTooFar;
      var fired := q.NextJob(clock);
      assert fired == null;
    }
  }

  lemma OnlyLate(q: TQueue, a: Callback, b: Callback)
    requires q.Sound() && q.Pending() == {b} && !q.Valid()
    ensures q.access.nodes == {b}
  {
    var n := q.Misplaced();
  }

  // The event in the window is delivered 2^32 cycles too early.
  method WaitForLate(q: TQueue, b: Callback) returns (clock: nat, fired: Callback?)
    requires q.Sound() && q.AccessSize == 256 && q.Pending() == q.access.nodes == {b} && q.minTime == 4000
    requires b.time == TWO32 + 4100
    modifies q, q.access, q.access.access, q.access.accessTail, b`tqNext
    ensures clock == 4100 && fired == b
  {
    clock, fired := 4000, null;
    while fired == null
      invariant 4000 <= clock <= 4100 && (fired == null || (fired == b && clock == 4100))
      invariant fired == null ==> q.Sound() && q.minTime == clock < 4100 && q.Pending() == q.access.nodes == {b}
      decreases 4100 - clock, fired == null
    {
      clock := clock + 1;
      fired := q.NextJob(clock);
    }
  }
}
