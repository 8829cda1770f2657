/**
 Window slots and registers: whatever is in flight and has not given its slot
 or its register back accounts for everything that is missing from the pools.
 */
module RobAccounting {
  import opened RobFlush

  predicate HoldsSlot(e: Inst) { e.renamed && !e.delEntry }

  predicate HoldsReg(e: Inst) { e.renamed && e.hasDst && !e.tryFlush }

  function One(b: bool): nat { if b then 1 else 0 }

  function SlotsIn(s: seq<Inst>, c: nat): nat {
    if s == [] then 0 else SlotsIn(s[..|s| - 1], c) + One(s[|s| - 1].cluster == c && HoldsSlot(s[|s| - 1]))
  }

  function RegsIn(s: seq<Inst>, c: nat): nat {
    if s == [] then 0 else RegsIn(s[..|s| - 1], c) + One(s[|s| - 1].cluster == c && HoldsReg(s[|s| - 1]))
  }

  // How the flags of an instruction hang together.
  predicate InstOk(e: Inst) {
    && (e.issued || e.executing || e.executed ==> e.renamed)
    && (e.executed ==> e.delEntry)
    && (e.tryFlush ==> e.hasDst && e.delEntry)
    && (e.flushTransient ==> e.delEntry && (e.hasDst ==> e.tryFlush))
  }

  predicate AllOk(s: seq<Inst>) { forall i | 0 <= i < |s| :: InstOk(s[i]) }

  // After the first loop a transient instruction holds neither a slot nor a register.
  predicate Settled(e: Inst) { InstOk(e) && (e.transient ==> e.delEntry && (e.hasDst ==> e.tryFlush)) }

  predicate AllSettled(s: seq<Inst>) { forall i | 0 <= i < |s| :: Settled(s[i]) }

  lemma SlotsPush(s: seq<Inst>, e: Inst, c: nat)
    ensures SlotsIn(s + [e], c) == SlotsIn(s, c) + One(e.cluster == c && HoldsSlot(e))
    ensures RegsIn(s + [e], c) == RegsIn(s, c) + One(e.cluster == c && HoldsReg(e))
  {
    assert (s + [e])[..|s|] == s;
  }

  lemma {:induction false} SlotsJoin(s: seq<Inst>, t: seq<Inst>, c: nat)
    ensures SlotsIn(s + t, c) == SlotsIn(s, c) + SlotsIn(t, c)
    ensures RegsIn(s + t, c) == RegsIn(s, c) + RegsIn(t, c)
    decreases |t|
  {
    if t == [] {
      assert s + t == s;
    } else {
      assert (s + t)[..|s + t| - 1] == s + t[..|t| - 1];
      SlotsJoin(s, t[..|t| - 1], c);
    }
  }

  // Replacing one instruction changes the sums by what it held before and holds now.
  lemma SlotsUpdate(s: seq<Inst>, i: nat, e: Inst, c: nat)
    requires i < |s|
    ensures SlotsIn(s[i := e], c) ==
        SlotsIn(s, c) - One(s[i].cluster == c && HoldsSlot(s[i])) + One(e.cluster == c && HoldsSlot(e))
    ensures RegsIn(s[i := e], c) ==
        RegsIn(s, c) - One(s[i].cluster == c && HoldsReg(s[i])) + One(e.cluster == c && HoldsReg(e))
  {
    var l, r := s[..i], s[i + 1..];
    assert s == l + [s[i]] + r && s[i := e] == l + [e] + r;
    SlotsPush(l, s[i], c);
    SlotsPush(l, e, c);
    SlotsJoin(l + [s[i]], r, c);
    SlotsJoin(l + [e], r, c);
  }

  lemma {:induction false} DrainHolds(s: seq<Inst>, ids: seq<nat>, c: nat)
    requires AllSettled(s)
    ensures AllSettled(Drain(s, ids))
    ensures SlotsIn(Drain(s, ids), c) == SlotsIn(s, c) && RegsIn(Drain(s, ids), c) == RegsIn(s, c)
    decreases |ids|
  {
    if ids != [] {
      DrainOneHolds(s, ids[0], c);
      DrainHolds(DrainOne(s, ids[0]), ids[1..], c);
    }
  }

  lemma {:induction false} DrainOneHolds(s: seq<Inst>, id: nat, c: nat)
    requires AllSettled(s)
    ensures AllSettled(DrainOne(s, id))
    ensures SlotsIn(DrainOne(s, id), c) == SlotsIn(s, c) && RegsIn(DrainOne(s, id), c) == RegsIn(s, c)
  {
    forall i | 0 <= i < |s|
      ensures Settled(DrainOne(s, id)[i])
    {
      assert Settled(s[i]);
    }
    DrainOneSums(s, id, c);
  }

  lemma {:induction false} DrainOneSums(s: seq<Inst>, id: nat, c: nat)
    ensures SlotsIn(DrainOne(s, id), c) == SlotsIn(s, c) && RegsIn(DrainOne(s, id), c) == RegsIn(s, c)
  {
    if s != [] {
      var init := s[..|s| - 1];
      assert DrainOne(s, id)[..|s| - 1] == DrainOne(init, id);
      DrainOneSums(init, id, c);
    }
  }

  // ---- One instruction through the first and the second loop ----

  lemma FirstBalances(e: Inst, stack: seq<Inst>, p: Pools, c: nat)
    requires InstOk(e) && AllSettled(stack) && InPools(e, p) && c < |p.win| && c < |p.reg|
    ensures var t, q := StackAfter(e, stack), PoolsAfter(e, p);
            && AllSettled(t)
            && q.win[c] + SlotsIn(t, c) == p.win[c] + SlotsIn(stack, c) + One(e.cluster == c && HoldsSlot(e))
            && q.reg[c] + RegsIn(t, c) == p.reg[c] + RegsIn(stack, c) + One(e.cluster == c && HoldsReg(e))
  {
    hide Drain, SlotsIn, RegsIn;
    if Destroyed(e) {
      DrainHolds(stack, e.pending, c);
    } else if !e.transient || (Flushable(e) && e.tryFlush) {
      SlotsPush(stack, e, c);
    } else if Flushable(e) {
      SlotsPush(stack, Marked(e), c);
      MarkedIsSettled(e);
    }
  }

  lemma MarkedIsSettled(e: Inst)
    requires InstOk(e)
    ensures Settled(Marked(e)) && !HoldsSlot(Marked(e)) && !HoldsReg(Marked(e)) && Marked(e).cluster == e.cluster
  {
  }

  lemma SecondBalances(e: Inst, rob: seq<Inst>, p: Pools, max: seq<int>, c: nat)
    requires Settled(e) && AllSettled(rob) && InPools(e, p) && |p.win| == |max| && c < |p.win| && c < |p.reg|
    ensures var r, q := RobAfter(e, rob), PoolsAfter2(e, p, max);
            && AllSettled(r)
            && q.win[c] + SlotsIn(r, c) == p.win[c] + SlotsIn(rob, c) + One(e.cluster == c && HoldsSlot(e))
            && q.reg[c] + RegsIn(r, c) == p.reg[c] + RegsIn(rob, c) + One(e.cluster == c && HoldsReg(e))
  {
    var f := e.(delEntry := e.delEntry || e.transient);
    SlotsPush(rob, f, c);
  }

  lemma {:induction false} FirstPassBalances(rob: seq<Inst>, stack: seq<Inst>, p: Pools, c: nat)
    requires AllOk(rob) && AllSettled(stack) && AllIn(rob, p) && AllIn(stack, p) && c < |p.win| && c < |p.reg|
    ensures var t, q := Stacked(rob, stack), Pooled(rob, p);
            && AllSettled(t) && AllIn(t, q)
            && q.win[c] + SlotsIn(t, c) == p.win[c] + SlotsIn(stack, c) + SlotsIn(rob, c)
            && q.reg[c] + RegsIn(t, c) == p.reg[c] + RegsIn(stack, c) + RegsIn(rob, c)
    decreases |rob|
  {
    if rob != [] {
      var e := rob[|rob| - 1];
      assert InstOk(e) && InPools(e, p);
      FirstBalances(e, stack, p, c);
      StackAfterFits(e, stack, p);
      FirstPassBalances(rob[..|rob| - 1], StackAfter(e, stack), PoolsAfter(e, p), c);
    }
  }

  lemma {:induction false} SecondPassBalances(stack: seq<Inst>, rob: seq<Inst>, p: Pools, max: seq<int>, c: nat)
    requires AllSettled(stack) && AllSettled(rob) && AllIn(stack, p) && |p.win| == |max| && c < |p.win| && c < |p.reg|
    ensures var r, q := Unstacked(stack, rob), Pooled2(stack, p, max);
            && AllSettled(r)
            && q.win[c] + SlotsIn(r, c) == p.win[c] + SlotsIn(rob, c) + SlotsIn(stack, c)
            && q.reg[c] + RegsIn(r, c) == p.reg[c] + RegsIn(rob, c) + RegsIn(stack, c)
    decreases |stack|
  {
    if stack != [] {
      var e := stack[|stack| - 1];
      assert Settled(e) && InPools(e, p);
      SecondBalances(e, rob, p, max, c);
      SecondPassBalances(stack[..|stack| - 1], RobAfter(e, rob), PoolsAfter2(e, p, max), max, c);
    }
  }

  // A flush gives back exactly the slots and registers that the instructions it touches still hold,
  // and leaves no transient instruction holding any.
  lemma FlushBalances(rob: seq<Inst>, p: Pools, max: seq<int>, c: nat)
    requires AllOk(rob) && AllIn(rob, p) && |p.win| == |max| && c < |p.win| && c < |p.reg|
    ensures var stack, mid := Stacked(rob, []), Pooled(rob, p);
            && AllIn(stack, mid) && AllSettled(Flushed(rob))
            && var q := Pooled2(stack, mid, max);
               && q.win[c] + SlotsIn(Flushed(rob), c) == p.win[c] + SlotsIn(rob, c)
               && q.reg[c] + RegsIn(Flushed(rob), c) == p.reg[c] + RegsIn(rob, c)
  {
    FirstPassBalances(rob, [], p, c);
    SecondPassBalances(Stacked(rob, []), [], Pooled(rob, p), max, c);
  }

  // ---- Every interleaving of the back end's steps ----

  ghost predicate BalancedAt(rob: seq<Inst>, rrob: seq<Inst>, p: Pools, max: seq<int>, regs: seq<int>, c: nat)
    requires c < |p.win| && c < |p.reg| && c < |max| && c < |regs|
  {
    && 0 <= p.win[c] && 0 <= p.reg[c]
    && p.win[c] + SlotsIn(rob, c) + SlotsIn(rrob, c) == max[c]
    && p.reg[c] + RegsIn(rob, c) + RegsIn(rrob, c) == regs[c]
  }

  ghost predicate Conserved(rob: seq<Inst>, rrob: seq<Inst>, p: Pools, max: seq<int>, regs: seq<int>) {
    && |p.win| == |p.reg| == |max| == |regs|
    && AllOk(rob) && AllOk(rrob) && AllIn(rob, p) && AllIn(rrob, p)
    && forall c: nat | c < |max| :: BalancedAt(rob, rrob, p, max, regs, c)
  }

  // Free slots and registers neither run below zero nor above what the cluster has.
  lemma PoolsWithinBounds(rob: seq<Inst>, rrob: seq<Inst>, p: Pools, max: seq<int>, regs: seq<int>, c: nat)
    requires Conserved(rob, rrob, p, max, regs) && c < |max|
    ensures 0 <= p.win[c] <= max[c] && 0 <= p.reg[c] <= regs[c]
    ensures p.win[c] == max[c] <==> forall i | 0 <= i < |rob + rrob| ::
        (rob + rrob)[i].cluster == c ==> !HoldsSlot((rob + rrob)[i])
    ensures p.reg[c] == regs[c] <==> forall i | 0 <= i < |rob + rrob| ::
        (rob + rrob)[i].cluster == c ==> !HoldsReg((rob + rrob)[i])
  {
    assert BalancedAt(rob, rrob, p, max, regs, c);
    SlotsJoin(rob, rrob, c);
    NoneHeld(rob + rrob, c);
  }

  lemma {:induction false} NoneHeld(s: seq<Inst>, c: nat)
    ensures SlotsIn(s, c) == 0 <==> forall i | 0 <= i < |s| :: s[i].cluster == c ==> !HoldsSlot(s[i])
    ensures RegsIn(s, c) == 0 <==> forall i | 0 <= i < |s| :: s[i].cluster == c ==> !HoldsReg(s[i])
  {
    if s != [] {
      NoneHeld(s[..|s| - 1], c);
    }
  }

  lemma AddConserves(rob: seq<Inst>, rrob: seq<Inst>, p: Pools, q: Pools, max: seq<int>, regs: seq<int>, e: Inst)
    requires Conserved(rob, rrob, p, max, regs) && InstOk(e) && HoldsSlot(e) && !e.tryFlush && InPools(e, p) &&
        SameSize(p, q)
    requires 0 < p.win[e.cluster] && 0 < p.reg[e.cluster] && q.win == p.win[e.cluster := p.win[e.cluster] - 1]
    requires q.reg == if e.hasDst then p.reg[e.cluster := p.reg[e.cluster] - 1] else p.reg
    ensures Conserved(rob + [e], rrob, q, max, regs)
  {
    var rob' := rob + [e];
    forall c: nat | c < |max|
      ensures BalancedAt(rob', rrob, q, max, regs, c)
    {
      assert BalancedAt(rob, rrob, p, max, regs, c);
      SlotsPush(rob, e, c);
    }
  }

  // A step that gives back just what instruction i of the buffer stops holding.
  lemma UpdateConserves(rob: seq<Inst>, rrob: seq<Inst>, p: Pools, q: Pools, max: seq<int>, regs: seq<int>, i: nat,
      e: Inst)
    requires Conserved(rob, rrob, p, max, regs) && i < |rob| && InstOk(e) && e.cluster == rob[i].cluster &&
        SameSize(p, q)
    requires InPools(e, p) && HoldsReg(e) == HoldsReg(rob[i]) && (HoldsSlot(e) ==> HoldsSlot(rob[i]))
    requires q == if HoldsSlot(rob[i]) && !HoldsSlot(e) then AddWin(p, e.cluster) else p
    ensures Conserved(rob[i := e], rrob, q, max, regs)
  {
    var rob' := rob[i := e];
    forall c: nat | c < |max|
      ensures BalancedAt(rob', rrob, q, max, regs, c)
    {
      assert BalancedAt(rob, rrob, p, max, regs, c);
      SlotsUpdate(rob, i, e, c);
    }
  }

  lemma Swapped(rob: seq<Inst>, rrob: seq<Inst>, p: Pools, max: seq<int>, regs: seq<int>)
    requires Conserved(rob, rrob, p, max, regs)
    ensures Conserved(rrob, rob, p, max, regs)
  {
    forall c: nat | c < |max|
      ensures BalancedAt(rrob, rob, p, max, regs, c)
    {
      assert BalancedAt(rob, rrob, p, max, regs, c);
    }
  }

  // When the oldest instruction leaves with its register given back, nothing is lost if and only if
  // its slot has been given back before.
  lemma LeaveConserves(rob: seq<Inst>, rrob: seq<Inst>, p: Pools, max: seq<int>, regs: seq<int>)
    requires Conserved(rob, rrob, p, max, regs) && rob != [] && rob[0].renamed && InPools(rob[0], p)
    ensures Conserved(rob[1..], rrob, RegBack(rob[0], p), max, regs) <==> rob[0].delEntry
  {
    var rest, e, q := rob[1..], rob[0], RegBack(rob[0], p);
    forall c: nat | c < |max|
      ensures BalancedAt(rest, rrob, q, max, regs, c) <==> e.cluster == c ==> e.delEntry
    {
      assert BalancedAt(rob, rrob, p, max, regs, c);
      FirstOf(rob, c);
    }
    assert BalancedAt(rest, rrob, q, max, regs, e.cluster) <==> e.delEntry;
  }

  lemma FirstOf(s: seq<Inst>, c: nat)
    requires s != []
    ensures SlotsIn(s, c) == One(s[0].cluster == c && HoldsSlot(s[0])) + SlotsIn(s[1..], c)
    ensures RegsIn(s, c) == One(s[0].cluster == c && HoldsReg(s[0])) + RegsIn(s[1..], c)
  {
    assert s == [s[0]] + s[1..];
    SlotsJoin([s[0]], s[1..], c);
    SlotsPush([], s[0], c);
    assert [] + [s[0]] == [s[0]];
  }

  // An instruction that has retired before it executed holds its slot still, but no register.
  function Unregistered(e: Inst): Inst { e.(hasDst := false, flushTransient := false, tryFlush := false) }

  lemma EarlyConserves(rob: seq<Inst>, rrob: seq<Inst>, late: seq<Inst>, p: Pools, max: seq<int>, regs: seq<int>)
    requires Conserved(rob, rrob + late, p, max, regs) && rrob != [] && rrob[0].renamed && InPools(rrob[0], p)
    ensures Conserved(rob, rrob[1..] + (late + [Unregistered(rrob[0])]), RegBack(rrob[0], p), max, regs)
  {
    hide SlotsIn, RegsIn;
    var e, all, rest := rrob[0], rrob + late, rrob[1..] + late;
    var now := rrob[1..] + (late + [Unregistered(e)]);
    assert all[0] == e && all[1..] == rest && now == rest + [Unregistered(e)];
    assert InstOk(all[0]);
    forall c: nat | c < |max|
      ensures BalancedAt(rob, now, RegBack(e, p), max, regs, c)
    {
      assert BalancedAt(rob, all, p, max, regs, c);
      FirstOf(all, c);
      SlotsPush(rest, Unregistered(e), c);
    }
  }

  // One that executes after it has retired gives its slot back at last.
  lemma LateConserves(rob: seq<Inst>, rrob: seq<Inst>, late: seq<Inst>, j: nat, p: Pools, max: seq<int>, regs: seq<int>)
    requires Conserved(rob, rrob + late, p, max, regs) && j < |late| && InPools(late[j], p)
    requires late[j].renamed && !HoldsReg(late[j])
    ensures Conserved(rob, rrob + (late[..j] + late[j + 1..]), SlotBack(late[j], p), max, regs)
  {
    var l, r, e, all, now := rrob + late[..j], late[j + 1..], late[j], rrob + late, rrob + (late[..j] + late[j + 1..]);
    assert all == l + ([e] + r) && now == l + r;
    forall c: nat | c < |max|
      ensures BalancedAt(rob, now, SlotBack(e, p), max, regs, c)
    {
      assert BalancedAt(rob, all, p, max, regs, c);
      SlotsJoin(l, [e] + r, c);
      FirstOf([e] + r, c);
      SlotsJoin(l, r, c);
    }
    forall i | 0 <= i < |now|
      ensures InstOk(now[i]) && InPools(now[i], p)
    {
      assert now[i] == all[if i < |l| then i else i + 1];
    }
  }

  // Where the newcomer joins does not matter.
  lemma JoinsBefore(rob: seq<Inst>, rrob: seq<Inst>, late: seq<Inst>, e: Inst, p: Pools, max: seq<int>, regs: seq<int>)
    requires Conserved(rob, (rrob + late) + [e], p, max, regs)
    ensures Conserved(rob, (rrob + [e]) + late, p, max, regs)
  {
    var was, now := (rrob + late) + [e], (rrob + [e]) + late;
    forall c: nat | c < |max|
      ensures BalancedAt(rob, now, p, max, regs, c)
    {
      assert BalancedAt(rob, was, p, max, regs, c);
      SlotsPush(rrob + late, e, c);
      SlotsJoin(rrob, late, c);
      SlotsJoin(rrob + [e], late, c);
      SlotsPush(rrob, e, c);
    }
    forall i | 0 <= i < |now|
      ensures InstOk(now[i]) && InPools(now[i], p)
    {
      assert now[i] == was[if i < |rrob| then i else if i == |rrob| then |was| - 1 else i - 1];
    }
  }

  lemma MoveConserves(rob: seq<Inst>, rrob: seq<Inst>, p: Pools, max: seq<int>, regs: seq<int>)
    requires Conserved(rob, rrob, p, max, regs) && rob != []
    ensures Conserved(rob[1..], rrob + [rob[0]], p, max, regs)
  {
    assert InstOk(rob[0]) && InPools(rob[0], p);
    var rrob' := rrob + [rob[0]];
    forall c: nat | c < |max|
      ensures BalancedAt(rob[1..], rrob', p, max, regs, c)
    {
      assert BalancedAt(rob, rrob, p, max, regs, c);
      assert rob == [rob[0]] + rob[1..];
      SlotsJoin([rob[0]], rob[1..], c);
      SlotsPush([], rob[0], c);
      assert [] + [rob[0]] == [rob[0]];
      SlotsPush(rrob, rob[0], c);
    }
  }

  lemma FlushConserves(rob: seq<Inst>, rrob: seq<Inst>, p: Pools, max: seq<int>, regs: seq<int>)
    requires Conserved(rob, rrob, p, max, regs)
    ensures AllIn(Stacked(rob, []), Pooled(rob, p))
    ensures Conserved(Flushed(rob), rrob, Pooled2(Stacked(rob, []), Pooled(rob, p), max), max, regs)
  {
    var q := Pooled(rob, p);
    StackFits(rob, [], p);
    var r := Pooled2(Stacked(rob, []), q, max);
    UnstackFits(Stacked(rob, []), [], r);
    if |max| == 0 {
      FlushOk(rob, p);
    } else {
      assert BalancedAt(rob, rrob, p, max, regs, 0);
      FlushBalances(rob, p, max, 0);
      SettledOk(Flushed(rob));
    }
    forall c: nat | c < |max|
      ensures BalancedAt(Flushed(rob), rrob, r, max, regs, c)
    {
      assert BalancedAt(rob, rrob, p, max, regs, c);
      FlushBalances(rob, p, max, c);
      FlushOnlyGives(rob, p, c);
      ReturnOnlyGives(Stacked(rob, []), q, max, c);
    }
  }

  lemma {:induction false} FlushOnlyGives(rob: seq<Inst>, p: Pools, c: nat)
    requires AllIn(rob, p) && c < |p.win| && c < |p.reg|
    ensures p.win[c] <= Pooled(rob, p).win[c] && p.reg[c] <= Pooled(rob, p).reg[c]
  {
    if rob != [] {
      FlushOnlyGives(rob[..|rob| - 1], PoolsAfter(rob[|rob| - 1], p), c);
    }
  }

  lemma {:induction false} ReturnOnlyGives(stack: seq<Inst>, p: Pools, max: seq<int>, c: nat)
    requires AllIn(stack, p) && |p.win| == |max| && c < |p.win| && c < |p.reg|
    ensures p.win[c] <= Pooled2(stack, p, max).win[c] && p.reg[c] <= Pooled2(stack, p, max).reg[c]
  {
    if stack != [] {
      ReturnOnlyGives(stack[..|stack| - 1], PoolsAfter2(stack[|stack| - 1], p, max), max, c);
    }
  }

  lemma SettledOk(s: seq<Inst>)
    requires AllSettled(s)
    ensures AllOk(s)
  {
    forall i | 0 <= i < |s|
      ensures InstOk(s[i])
    {
      assert Settled(s[i]);
    }
  }

  lemma FlushOk(rob: seq<Inst>, p: Pools)
    requires AllIn(rob, p) && |p.win| == 0
    ensures rob == [] && Flushed(rob) == []
  {
    assert rob != [] ==> InPools(rob[0], p);
  }

  lemma {:induction false} StackFits(rob: seq<Inst>, stack: seq<Inst>, p: Pools)
    requires AllIn(rob, p) && AllIn(stack, p)
    ensures AllIn(Stacked(rob, stack), p)
    decreases |rob|
  {
    if rob != [] {
      StackAfterFits(rob[|rob| - 1], stack, p);
      StackFits(rob[..|rob| - 1], StackAfter(rob[|rob| - 1], stack), p);
    }
  }

  lemma {:induction false} UnstackFits(stack: seq<Inst>, rob: seq<Inst>, p: Pools)
    requires AllIn(stack, p) && AllIn(rob, p)
    ensures AllIn(Unstacked(stack, rob), p)
    decreases |stack|
  {
    if stack != [] {
      UnstackFits(stack[..|stack| - 1], RobAfter(stack[|stack| - 1], rob), p);
    }
  }

  // The retirement queue rrob holds the instructions that can no longer be flushed; late are those
  // that have retired from it without having executed yet.
  datatype State = State(rob: seq<Inst>, rrob: seq<Inst>, late: seq<Inst>, pools: Pools)

  datatype Action =
    | Add(e: Inst)                         // Cluster::add_inst
    | Issue(i: nat)
    | Execute(i: nat)                      // ExecutedCluster::executed, in the buffer
    | ExecuteLate(i: nat)                  // the same, in the retirement queue
    | ExecuteRetired(j: nat)               // the same, after retirement
    | Pass                                 // the oldest moves to the retirement queue
    | RetireTransient                      // ExecutedCluster::retire, in the buffer
    | Retire                               // the same, in the retirement queue
    | Flush
    | Refused                              // a unit did not take what it was asked

  // A newly renamed instruction carries no mark yet.
  predicate Fresh(e: Inst) {
    e.renamed && !e.issued && !e.executing && !e.executed && !e.delEntry && !e.flushTransient && !e.tryFlush
  }

  function StillLate(e: Inst, late: seq<Inst>): seq<Inst> {
    if e.delEntry then late else late + [Unregistered(e)]
  }

  ghost predicate Step(s: State, a: Action, t: State, max: seq<int>) {
    match a
    case Add(e) =>
      && Fresh(e) && InPools(e, s.pools) && 0 < s.pools.win[e.cluster] && 0 < s.pools.reg[e.cluster]
      && t == s.(rob := s.rob + [e], pools := Taken(e, s.pools))
    case Issue(i) =>
      && i < |s.rob| && s.rob[i].renamed && t == s.(rob := s.rob[i := s.rob[i].(issued := true)])
    case Execute(i) =>
      && i < |s.rob| && s.rob[i].renamed && InPools(s.rob[i], s.pools)
      && t == s.(rob := s.rob[i := MarkExecuted(s.rob[i])], pools := SlotBack(s.rob[i], s.pools))
    case ExecuteLate(i) =>
      && i < |s.rrob| && s.rrob[i].renamed && InPools(s.rrob[i], s.pools)
      && t == s.(rrob := s.rrob[i := MarkExecuted(s.rrob[i])], pools := SlotBack(s.rrob[i], s.pools))
    case ExecuteRetired(j) =>
      && j < |s.late| && InPools(s.late[j], s.pools)
      && t == s.(late := s.late[..j] + s.late[j + 1..], pools := SlotBack(s.late[j], s.pools))
    case Pass =>
      && s.rob != [] && t == s.(rob := s.rob[1..], rrob := s.rrob + [s.rob[0]])
    case RetireTransient =>
      && s.rob != [] && s.rob[0].renamed && s.rob[0].delEntry && InPools(s.rob[0], s.pools)
      && t == s.(rob := s.rob[1..], pools := RegBack(s.rob[0], s.pools))
    case Retire =>
      && s.rrob != [] && s.rrob[0].renamed && InPools(s.rrob[0], s.pools)
      && t == State(s.rob, s.rrob[1..], StillLate(s.rrob[0], s.late), RegBack(s.rrob[0], s.pools))
    case Refused => t == s
    case Flush =>
      && AllIn(s.rob, s.pools) && AllIn(Stacked(s.rob, []), Pooled(s.rob, s.pools)) && |s.pools.win| == |max|
      && t == s.(rob := Flushed(s.rob), pools := Pooled2(Stacked(s.rob, []), Pooled(s.rob, s.pools), max))
  }

  // Nothing is missing from the pools but what instructions in flight hold.
  ghost predicate Balanced(s: State, max: seq<int>, regs: seq<int>) {
    && Conserved(s.rob, s.rrob + s.late, s.pools, max, regs)
    && forall j | 0 <= j < |s.late| :: s.late[j].renamed && !HoldsReg(s.late[j])
  }

  lemma StepConserves(s: State, a: Action, t: State, max: seq<int>, regs: seq<int>)
    requires Balanced(s, max, regs) && Step(s, a, t, max)
    ensures Balanced(t, max, regs)
  {
    hide Conserved;
    match a
    case Add(e) => AddConserves(s.rob, s.rrob + s.late, s.pools, t.pools, max, regs, e);
    case Issue(i) =>
      KnownCluster(s.rob, s.rrob + s.late, s.pools, max, regs, i);
      ChangeConserves(s, t, i, s.rob[i].(issued := true), max, regs);
    case Execute(i) => ChangeConserves(s, t, i, MarkExecuted(s.rob[i]), max, regs);
    case ExecuteLate(i) => ExecuteLateConserves(s, t, i, max, regs);
    case ExecuteRetired(j) => LateConserves(s.rob, s.rrob, s.late, j, s.pools, max, regs);
    case Pass =>
      MoveConserves(s.rob, s.rrob + s.late, s.pools, max, regs);
      JoinsBefore(t.rob, s.rrob, s.late, s.rob[0], s.pools, max, regs);
    case RetireTransient => LeaveConserves(s.rob, s.rrob + s.late, s.pools, max, regs);
    case Retire => RetireConserves(s, t, max, regs);
    case Refused =>
    case Flush => FlushConserves(s.rob, s.rrob + s.late, s.pools, max, regs);
  }

  lemma KnownCluster(rob: seq<Inst>, rrob: seq<Inst>, p: Pools, max: seq<int>, regs: seq<int>, i: nat)
    requires Conserved(rob, rrob, p, max, regs) && i < |rob|
    ensures InPools(rob[i], p)
  {
  }

  lemma ChangeConserves(s: State, t: State, i: nat, e: Inst, max: seq<int>, regs: seq<int>)
    requires Balanced(s, max, regs) && i < |s.rob| && s.rob[i].renamed && InPools(s.rob[i], s.pools)
    requires e == s.rob[i].(issued := true) || e == MarkExecuted(s.rob[i])
    requires t == s.(rob := s.rob[i := e], pools := if e.delEntry then SlotBack(s.rob[i], s.pools) else s.pools)
    ensures Balanced(t, max, regs)
  {
    assert InstOk(s.rob[i]);
    UpdateConserves(s.rob, s.rrob + s.late, s.pools, t.pools, max, regs, i, e);
  }

  lemma ExecuteLateConserves(s: State, t: State, i: nat, max: seq<int>, regs: seq<int>)
    requires Balanced(s, max, regs) && Step(s, ExecuteLate(i), t, max)
    ensures Balanced(t, max, regs)
  {
    var all := s.rrob + s.late;
    assert all[i] == s.rrob[i] && InstOk(all[i]);
    Swapped(s.rob, all, s.pools, max, regs);
    UpdateConserves(all, s.rob, s.pools, t.pools, max, regs, i, MarkExecuted(s.rrob[i]));
    assert all[i := MarkExecuted(s.rrob[i])] == t.rrob + t.late;
    Swapped(t.rrob + t.late, t.rob, t.pools, max, regs);
  }

  lemma RetireConserves(s: State, t: State, max: seq<int>, regs: seq<int>)
    requires Balanced(s, max, regs) && Step(s, Retire, t, max)
    ensures Balanced(t, max, regs)
  {
    hide Conserved;
    if s.rrob[0].delEntry {
      var all := s.rrob + s.late;
      Swapped(s.rob, all, s.pools, max, regs);
      LeaveConserves(all, s.rob, s.pools, max, regs);
      assert all[1..] == t.rrob + t.late;
      Swapped(t.rrob + t.late, t.rob, t.pools, max, regs);
    } else {
      EarlyConserves(s.rob, s.rrob, s.late, s.pools, max, regs);
    }
  }

  ghost predicate Run(states: seq<State>, actions: seq<Action>, max: seq<int>, regs: seq<int>) {
    && (forall c: nat | c < |max| == |regs| :: 0 <= max[c] && 0 <= regs[c])
    && |states| == |actions| + 1 && |max| == |regs| && states[0] == State([], [], [], Pools(max, regs))
    && forall k: nat | k < |actions| :: Step(states[k], actions[k], states[k + 1], max)
  }

  // In every interleaving, slots and registers that are missing from the pools are exactly those
  // held in flight: each is given back once, by whichever of execution, flush and retirement is first.
  lemma {:induction false} EveryRunConserves(states: seq<State>, actions: seq<Action>, max: seq<int>,
      regs: seq<int>, k: nat)
    requires Run(states, actions, max, regs) && k < |states|
    ensures Balanced(states[k], max, regs)
  {
    if k == 0 {
      forall c: nat | c < |max|
        ensures BalancedAt([], [], Pools(max, regs), max, regs, c)
      {
      }
      assert states[0].rrob + states[0].late == [];
    } else {
      EveryRunConserves(states, actions, max, regs, k - 1);
      assert Step(states[k - 1], actions[k - 1], states[k - 1 + 1], max);
      StepConserves(states[k - 1], actions[k - 1], states[k], max, regs);
    }
  }
}
