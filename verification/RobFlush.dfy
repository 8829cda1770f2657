/**
 Flushing transient instructions out of the reorder buffer, and the window slots
 and registers that in-flight instructions hold in their clusters.
 */
module RobFlush {
  import opened Bits
  import opened FastQueues

  datatype Inst = Inst(
    id: nat,
    cluster: nat,
    transient: bool,
    renamed: bool,
    issued: bool,
    executing: bool,
    executed: bool,
    retired: bool,
    hasDst: bool,
    delEntry: bool,         // its window slot has been given back
    flushTransient: bool,
    tryFlush: bool,         // its register has been given back by a flush
    pending: seq<nat>,      // the instructions waiting for it
    nDeps: int)             // the producers it waits for

  // Free window slots and registers, cluster by cluster.
  datatype Pools = Pools(win: seq<int>, reg: seq<int>)

  predicate InPools(e: Inst, p: Pools) { e.cluster < |p.win| && e.cluster < |p.reg| }

  predicate AllIn(s: seq<Inst>, p: Pools) { forall i | 0 <= i < |s| :: InPools(s[i], p) }

  predicate SameSize(p: Pools, q: Pools) { |p.win| == |q.win| && |p.reg| == |q.reg| }

  function AddWin(p: Pools, c: nat): Pools
    requires c < |p.win|
  {
    p.(win := p.win[c := p.win[c] + 1])
  }

  function AddReg(p: Pools, c: nat): Pools
    requires c < |p.reg|
  {
    p.(reg := p.reg[c := p.reg[c] + 1])
  }

  // ---- What an instruction takes and gives back ----

  function Taken(e: Inst, p: Pools): (q: Pools)
    requires InPools(e, p)
    ensures SameSize(p, q)
  {
    Pools(p.win[e.cluster := p.win[e.cluster] - 1],
          if e.hasDst then p.reg[e.cluster := p.reg[e.cluster] - 1] else p.reg)
  }

  function SlotBack(e: Inst, p: Pools): (q: Pools)
    requires InPools(e, p)
    ensures SameSize(p, q)
  {
    if e.delEntry then p else AddWin(p, e.cluster)
  }

  function RegBack(e: Inst, p: Pools): (q: Pools)
    requires InPools(e, p)
    ensures SameSize(p, q)
  {
    if e.hasDst && !e.tryFlush then AddReg(p, e.cluster) else p
  }

  function MarkExecuted(e: Inst): Inst { e.(executed := true, delEntry := true) }

  // ---- What one pass does to one instruction, as a function ----

  function Destroyed(e: Inst): bool { e.transient && !e.retired && e.executed }

  function Flushable(e: Inst): bool { e.transient && !Destroyed(e) && (e.executing || e.issued || e.renamed) }

  function Marked(e: Inst): Inst {
    e.(flushTransient := e.flushTransient || e.executing || e.issued, delEntry := true, tryFlush := e.hasDst)
  }

  // One producer less for every instruction in ids.
  function Drain(s: seq<Inst>, ids: seq<nat>): (t: seq<Inst>)
    ensures |t| == |s|
    decreases |ids|
  {
    if ids == [] then s else Drain(DrainOne(s, ids[0]), ids[1..])
  }

  function DrainOne(s: seq<Inst>, id: nat): (t: seq<Inst>)
    ensures |t| == |s|
  {
    seq(|s|, i requires 0 <= i < |s| => if s[i].id == id then s[i].(nDeps := s[i].nDeps - 1) else s[i])
  }

  function StackAfter(e: Inst, stack: seq<Inst>): seq<Inst> {
    if !e.transient || (Flushable(e) && e.tryFlush) then stack + [e]
    else if Destroyed(e) then Drain(stack, e.pending)
    else if Flushable(e) then stack + [Marked(e)]
    else stack
  }

  function PoolsAfter(e: Inst, p: Pools): (q: Pools)
    requires InPools(e, p)
    ensures SameSize(p, q)
  {
    if !e.transient || e.tryFlush then p
    else if Destroyed(e) then if e.hasDst then AddReg(p, e.cluster) else p
    else if Flushable(e) then
      var q := if e.delEntry then p else AddWin(p, e.cluster);
      if e.hasDst then AddReg(q, e.cluster) else q
    else p
  }

  predicate Leaves(e: Inst) { e.flushTransient && e.executed && e.nDeps == 0 && e.pending == [] }

  function RobAfter(e: Inst, rob: seq<Inst>): seq<Inst> {
    if Leaves(e) then rob else rob + [e.(delEntry := e.delEntry || e.transient)]
  }

  function PoolsAfter2(e: Inst, p: Pools, max: seq<int>): (q: Pools)
    requires InPools(e, p) && |p.win| == |max|
    ensures SameSize(p, q)
  {
    if Leaves(e) then
      if p.win[e.cluster] < max[e.cluster] - 1 then
        var q := if e.hasDst && !e.tryFlush then AddReg(p, e.cluster) else p;
        if e.delEntry then q else AddWin(q, e.cluster)
      else p
    else if !e.delEntry && e.transient then AddWin(p, e.cluster)
    else p
  }

  // ---- The two passes: youngest first onto the stack, then oldest first back ----

  function Stacked(rob: seq<Inst>, stack: seq<Inst>): seq<Inst> {
    if rob == [] then stack else Stacked(rob[..|rob| - 1], StackAfter(rob[|rob| - 1], stack))
  }

  function Pooled(rob: seq<Inst>, p: Pools): (q: Pools)
    requires AllIn(rob, p)
    ensures SameSize(p, q)
  {
    if rob == [] then p else Pooled(rob[..|rob| - 1], PoolsAfter(rob[|rob| - 1], p))
  }

  function Unstacked(stack: seq<Inst>, rob: seq<Inst>): seq<Inst> {
    if stack == [] then rob else Unstacked(stack[..|stack| - 1], RobAfter(stack[|stack| - 1], rob))
  }

  function Pooled2(stack: seq<Inst>, p: Pools, max: seq<int>): (q: Pools)
    requires AllIn(stack, p) && |p.win| == |max|
    ensures SameSize(p, q)
  {
    if stack == [] then p else Pooled2(stack[..|stack| - 1], PoolsAfter2(stack[|stack| - 1], p, max), max)
  }

  function Flushed(rob: seq<Inst>): seq<Inst> { Unstacked(Stacked(rob, []), []) }

  class Core {
    const rob: FastQueue<Inst>
    const maxWin: seq<int>
    var windowSize: seq<int>
    var regPool: seq<int>

    ghost function Now(): Pools
      reads `windowSize, `regPool
    {
      Pools(windowSize, regPool)
    }

    ghost predicate Valid()
      reads this, rob
    {
      rob.Valid() && |windowSize| == |regPool| == |maxWin|
    }

    constructor (rob: FastQueue<Inst>, win: seq<int>, regs: seq<int>)
      requires rob.Valid() && |win| == |regs|
      ensures Valid() && this.rob == rob && maxWin == win && Now() == Pools(win, regs)
    {
      this.rob := rob;
      maxWin, windowSize, regPool := win, win, regs;
    }

    method DelEntryFlush(e: Inst) returns (r: Inst)
      requires e.cluster < |windowSize|
      modifies this`windowSize
      ensures r == e.(delEntry := true)
      ensures Now() == if e.delEntry then old(Now()) else AddWin(old(Now()), e.cluster)
    {
      r := e.(delEntry := true);
      if !e.delEntry {
        windowSize := windowSize[e.cluster := windowSize[e.cluster] + 1];
      }
    }

    // Cluster::add_inst takes a window slot and, with early allocation, the destination register.
    method AddInst(e: Inst)
      requires |windowSize| == |regPool| && InPools(e, Now()) && 0 < windowSize[e.cluster] && 0 < regPool[e.cluster]
      modifies this
      ensures Now() == Taken(e, old(Now()))
    {
      if e.hasDst {
        regPool := regPool[e.cluster := regPool[e.cluster] - 1];
      }
      windowSize := windowSize[e.cluster := windowSize[e.cluster] - 1];
    }

    // ExecutedCluster::executed gives the window slot back unless a flush already did.
    method Executed(e: Inst) returns (r: Inst)
      requires InPools(e, Now())
      modifies this`windowSize
      ensures r == MarkExecuted(e) && Now() == SlotBack(e, old(Now()))
    {
      r := e.(executed := true);
      r := DelEntryFlush(r);
    }

    // ExecutedCluster::retire gives the register back unless a flush already did.
    method Retire(e: Inst)
      requires InPools(e, Now())
      modifies this`regPool
      ensures Now() == RegBack(e, old(Now()))
    {
      if e.hasDst && !e.tryFlush {
        AddRegPool(e.cluster);
      }
    }

    method AddRegPool(c: nat)
      requires c < |regPool|
      modifies this`regPool
      ensures Now() == AddReg(old(Now()), c)
    {
      regPool := regPool[c := regPool[c] + 1];
    }

    // Wakes nobody: the dependents of a flushed instruction are flushed themselves.
    method DrainPending(e: Inst)
      modifies rob`pipe_in_cluster
      ensures rob.pipe_in_cluster == Drain(old(rob.pipe_in_cluster), e.pending)
    {
      var i := 0;
      while i < |e.pending|
        invariant 0 <= i <= |e.pending|
        invariant Drain(rob.pipe_in_cluster, e.pending[i..]) == Drain(old(rob.pipe_in_cluster), e.pending)
      {
        rob.pipe_in_cluster := DrainOne(rob.pipe_in_cluster, e.pending[i]);
        i := i + 1;
      }
    }

    // First loop, one instruction: the youngest leaves the buffer, for the stack or for good.
    method FlushYoungest()
      requires Valid() && rob.Contents() != [] && AllIn(rob.Contents(), Now())
      modifies this, rob
      ensures Valid() && SameSize(Now(), old(Now())) && rob.pipe == old(rob.pipe)
      ensures var s, e := old(rob.Contents()), old(rob.Contents()[|rob.Contents()| - 1]);
              && rob.Contents() == s[..|s| - 1]
              && rob.pipe_in_cluster == StackAfter(e, old(rob.pipe_in_cluster)) && Now() == PoolsAfter(e, old(Now()))
    {
      var e := rob.EndData();
      assert InPools(e, Now());
      Flush(e);
      rob.PopFromBack();
    }

    method Flush(e: Inst)
      requires |windowSize| == |regPool| == |maxWin| && InPools(e, Now())
      modifies this, rob`pipe_in_cluster
      ensures rob.pipe_in_cluster == StackAfter(e, old(rob.pipe_in_cluster)) && Now() == PoolsAfter(e, old(Now()))
    {
      if !e.transient {
        rob.PushPipeInCluster(e);
      } else if !e.retired && e.executed {
        DrainPending(e);
        if e.hasDst && !e.tryFlush {
          AddRegPool(e.cluster);
        }
      } else if e.executing || e.issued {
        if e.tryFlush {
          rob.PushPipeInCluster(e);
        } else {
          FlushWaiting(e.(flushTransient := true));
        }
      } else if e.renamed {
        if e.tryFlush {
          rob.PushPipeInCluster(e);
        } else {
          FlushWaiting(e);
        }
      }
    }

    method FlushWaiting(e: Inst)
      requires |windowSize| == |regPool| && e.cluster < |windowSize| && !e.tryFlush
      modifies this, rob`pipe_in_cluster
      ensures rob.pipe_in_cluster == old(rob.pipe_in_cluster) + [e.(delEntry := true, tryFlush := e.hasDst)]
      ensures var q := if e.delEntry then old(Now()) else AddWin(old(Now()), e.cluster);
              Now() == if e.hasDst then AddReg(q, e.cluster) else q
    {
      var r := DelEntryFlush(e);
      if r.hasDst {
        AddRegPool(r.cluster);
        r := r.(tryFlush := true);
      }
      rob.PushPipeInCluster(r);
    }

    // Second loop, one instruction: the oldest comes back from the stack, unless it can leave.
    method Restore()
      requires Valid() && rob.pipe_in_cluster != [] && AllIn(rob.pipe_in_cluster, Now()) && rob.nElems <= rob.pipeMask
      modifies this, rob, rob.pipe
      ensures Valid() && SameSize(Now(), old(Now())) && rob.pipe == old(rob.pipe)
      ensures var s, e := old(rob.pipe_in_cluster), old(rob.pipe_in_cluster[|rob.pipe_in_cluster| - 1]);
              && rob.pipe_in_cluster == s[..|s| - 1]
              && rob.Contents() == RobAfter(e, old(rob.Contents())) && Now() == PoolsAfter2(e, old(Now()), maxWin)
    {
      hide RobAfter, PoolsAfter2, IsPow2;
      var e := rob.pipe_in_cluster[|rob.pipe_in_cluster| - 1];
      assert InPools(e, Now());
      Return(e);
      rob.PopPipeInCluster();
    }

    method Return(e: Inst)
      requires Valid() && InPools(e, Now()) && rob.nElems <= rob.pipeMask
      modifies this, rob`end, rob`nElems, rob.pipe
      ensures Valid() && rob.Contents() == RobAfter(e, old(rob.Contents())) &&
          Now() == PoolsAfter2(e, old(Now()), maxWin)
    {
      if e.flushTransient && e.executed && !(e.nDeps != 0) && !(e.pending != []) {
        ReturnPools(e);
      } else {
        var r := FreeWindow(e);
        rob.Push(r);
      }
    }

    method FreeWindow(e: Inst) returns (r: Inst)
      requires |windowSize| == |regPool| == |maxWin| && InPools(e, Now()) && !Leaves(e)
      modifies this
      ensures r == e.(delEntry := e.delEntry || e.transient) && Now() == PoolsAfter2(e, old(Now()), maxWin)
    {
      r := e;
      if !e.delEntry && e.transient {
        r := DelEntryFlush(e);
      }
    }

    method ReturnPools(e: Inst)
      requires |windowSize| == |regPool| == |maxWin| && InPools(e, Now()) && Leaves(e)
      modifies this
      ensures Now() == PoolsAfter2(e, old(Now()), maxWin)
    {
      if windowSize[e.cluster] < maxWin[e.cluster] - 1 {
        if e.hasDst && !e.tryFlush {
          AddRegPool(e.cluster);
        }
        if !e.delEntry {
          var _ := DelEntryFlush(e);
        }
      }
    }

    method FlushTransientFromRob()
      requires Valid() && rob.pipe_in_cluster == [] && AllIn(rob.Contents(), Now())
      modifies this, rob, rob.pipe
      ensures Valid() && rob.pipe_in_cluster == [] && rob.Contents() == Flushed(old(rob.Contents()))
      ensures rob.pipe == old(rob.pipe)
      ensures AllIn(Stacked(old(rob.Contents()), []), Pooled(old(rob.Contents()), old(Now())))
      ensures Now() == Pooled2(Stacked(old(rob.Contents()), []), Pooled(old(rob.Contents()), old(Now())), maxWin)
    {
      FirstLoop();
      SecondLoop();
    }

    // Youngest first, from the buffer onto the stack.
    method FirstLoop()
      requires Valid() && rob.pipe_in_cluster == [] && AllIn(rob.Contents(), Now())
      modifies this, rob
      ensures Valid() && rob.pipe == old(rob.pipe) && rob.pipeMask == old(rob.pipeMask) && rob.Contents() == []
      ensures rob.pipe_in_cluster == Stacked(old(rob.Contents()), [])
      ensures Now() == Pooled(old(rob.Contents()), old(Now()))
      ensures AllIn(rob.pipe_in_cluster, Now()) && |rob.pipe_in_cluster| <= rob.pipeMask + 1
    {
      hide FastQueue.Contents, StackAfter, PoolsAfter, IsPow2;
      ghost var s, p := rob.Contents(), Now();
      while rob.nElems != 0
        invariant Valid() && SameSize(Now(), p) && rob.pipe == old(rob.pipe)
        invariant AllIn(rob.Contents(), Now()) && AllIn(rob.pipe_in_cluster, Now())
        invariant |rob.Contents()| + |rob.pipe_in_cluster| <= rob.pipeMask + 1
        invariant Stacked(rob.Contents(), rob.pipe_in_cluster) == Stacked(s, [])
        invariant Pooled(rob.Contents(), Now()) == Pooled(s, p)
        decreases rob.nElems
      {
        StackAfterFits(rob.Contents()[|rob.Contents()| - 1], rob.pipe_in_cluster, Now());
        FlushYoungest();
      }
    }

    // Oldest first, from the stack back into the buffer.
    method SecondLoop()
      requires Valid() && rob.Contents() == [] && AllIn(rob.pipe_in_cluster, Now())
      requires |rob.pipe_in_cluster| <= rob.pipeMask + 1
      modifies this, rob, rob.pipe
      ensures Valid() && rob.pipe == old(rob.pipe) && rob.pipe_in_cluster == []
      ensures rob.Contents() == Unstacked(old(rob.pipe_in_cluster), [])
      ensures Now() == Pooled2(old(rob.pipe_in_cluster), old(Now()), maxWin)
    {
      hide FastQueue.Contents, PoolsAfter2, IsPow2;
      ghost var t, q := rob.pipe_in_cluster, Now();
      while rob.pipe_in_cluster != []
        invariant Valid() && SameSize(Now(), q) && AllIn(rob.pipe_in_cluster, Now()) && rob.pipe == old(rob.pipe)
        invariant |rob.Contents()| + |rob.pipe_in_cluster| <= rob.pipeMask + 1
        invariant Unstacked(rob.pipe_in_cluster, rob.Contents()) == Unstacked(t, [])
        invariant Pooled2(rob.pipe_in_cluster, Now(), maxWin) == Pooled2(t, q, maxWin)
        decreases |rob.pipe_in_cluster|
      {
        Restore();
      }
    }
  }

  lemma {:induction false} DrainFits(s: seq<Inst>, ids: seq<nat>, p: Pools)
    requires AllIn(s, p)
    ensures AllIn(Drain(s, ids), p)
    decreases |ids|
  {
    if ids != [] {
      DrainFits(DrainOne(s, ids[0]), ids[1..], p);
    }
  }

  lemma StackAfterFits(e: Inst, stack: seq<Inst>, p: Pools)
    requires AllIn(stack, p) && InPools(e, p)
    ensures AllIn(StackAfter(e, stack), p) && |StackAfter(e, stack)| <= |stack| + 1
  {
    DrainFits(stack, e.pending, p);
  }
}
