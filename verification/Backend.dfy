/**
 The back end as a whole: the reorder buffer, the retirement queue and the pools of the clusters,
 driven by any sequence of events.
 */
module Backends {
  import opened Bits
  import opened FastQueues
  import opened RobFlush
  import opened RobAccounting

  class Backend {
    const core: Core
    const rrob: FastQueue<Inst>
    // Retired, but not executed yet.
    var late: seq<Inst>
    ghost const regs: seq<int>

    ghost predicate Shape()
      reads this, core, core.rob, rrob
    {
      && core.Valid() && rrob.Valid() && core.rob != rrob && core.rob.pipe != rrob.pipe
      && core.rob.pipe_in_cluster == []
    }

    ghost function Now(): State
      requires Shape()
      reads this, core, core.rob, core.rob.pipe, rrob, rrob.pipe
    {
      State(core.rob.Contents(), rrob.Contents(), late, core.Now())
    }

    ghost predicate Valid()
      reads this, core, core.rob, core.rob.pipe, rrob, rrob.pipe
    {
      Shape() && Balanced(Now(), core.maxWin, regs)
    }

    constructor (size: nat, win: seq<int>, regs: seq<int>)
      requires 0 < size < 256 * 1024 && |win| == |regs| && forall c | 0 <= c < |win| :: 0 <= win[c] && 0 <= regs[c]
      ensures Valid() && Now() == State([], [], [], Pools(win, regs)) && core.maxWin == win && this.regs == regs
      ensures size <= core.rob.pipe.Length && size <= rrob.pipe.Length
      ensures fresh(core) && fresh(core.rob) && fresh(rrob) && fresh(core.rob.pipe) && fresh(rrob.pipe)
    {
      var rob := new FastQueue<Inst>(size);
      rrob := new FastQueue<Inst>(size);
      core := new Core(rob, win, regs);
      late, this.regs := [], regs;
      new;
      EveryRunConserves([Now()], [], win, regs, 0);
    }

    ghost predicate Takes(a: Action)
      requires Shape()
      reads this, core, core.rob, core.rob.pipe, rrob, rrob.pipe
    {
      Allows(Now(), a, core.rob.pipe.Length, rrob.pipe.Length)
    }

    // Cluster::add_inst, if the cluster has a slot and a register and the buffer has room.
    method Add(e: Inst) returns (ok: bool)
      requires Valid() && Fresh(e)
      modifies core, core.rob, core.rob.pipe
      ensures ok <==> old(Takes(Action.Add(e)))
      ensures Shape() && (if ok then Step(old(Now()), Action.Add(e), Now(), core.maxWin) else Now() == old(Now()))
      ensures core.rob.pipe == old(core.rob.pipe)
    {
      ok := && e.cluster < |core.windowSize| && 0 < core.windowSize[e.cluster] && 0 < core.regPool[e.cluster]
            && core.rob.nElems <= core.rob.pipeMask;
      if ok {
        core.AddInst(e);
        core.rob.Push(e);
      }
    }

    // Marks on an instruction of the buffer.
    method Issue(i: nat) returns (ok: bool)
      requires Valid()
      modifies core.rob.pipe
      ensures ok <==> old(Takes(Action.Issue(i)))
      ensures Shape() && (if ok then Step(old(Now()), Action.Issue(i), Now(), core.maxWin) else Now() == old(Now()))
    {
      hide FastQueue.Contents, IsPow2;
      ok := false;
      if i < core.rob.nElems {
        var id := core.rob.GetIDFromTop(i);
        var e := core.rob.pipe[id];
        if e.renamed {
          core.rob.Change(i, e.(issued := true));
          ok := true;
        }
      }
    }

    method Execute(i: nat) returns (ok: bool)
      requires Valid()
      modifies core`windowSize, core.rob.pipe
      ensures ok <==> old(Takes(Action.Execute(i)))
      ensures Shape() && (if ok then Step(old(Now()), Action.Execute(i), Now(), core.maxWin) else Now() == old(Now()))
    {
      hide FastQueue.Contents, IsPow2;
      ok := false;
      if i < core.rob.nElems {
        var id := core.rob.GetIDFromTop(i);
        var e := core.rob.pipe[id];
        KnownCluster(Now().rob, Now().rrob + Now().late, Now().pools, core.maxWin, regs, i);
        if e.renamed {
          var r := core.Executed(e);
          core.rob.Change(i, r);
          ok := true;
        }
      }
    }

    method ExecuteLate(i: nat) returns (ok: bool)
      requires Valid()
      modifies core`windowSize, rrob.pipe
      ensures ok <==> old(Takes(Action.ExecuteLate(i)))
      ensures Shape()
      ensures if ok then Step(old(Now()), Action.ExecuteLate(i), Now(), core.maxWin) else Now() == old(Now())
    {
      hide FastQueue.Contents, IsPow2;
      ok := false;
      if i < rrob.nElems {
        var id := rrob.GetIDFromTop(i);
        var e := rrob.pipe[id];
        KnownLate(i);
        if e.renamed {
          var r := core.Executed(e);
          rrob.Change(i, r);
          ok := true;
        }
      }
    }

    // Instructions past the buffer belong to known clusters, too.
    lemma KnownLate(i: nat)
      requires Valid()
      ensures i < |Now().rrob| ==> InPools(Now().rrob[i], Now().pools)
      ensures i < |Now().late| ==> InPools(Now().late[i], Now().pools)
    {
      var s := Now();
      var all := s.rrob + s.late;
      Swapped(s.rob, all, s.pools, core.maxWin, regs);
      if i < |s.rrob| {
        KnownCluster(all, s.rob, s.pools, core.maxWin, regs, i);
        assert all[i] == s.rrob[i];
      }
      if i < |s.late| {
        KnownCluster(all, s.rob, s.pools, core.maxWin, regs, |s.rrob| + i);
        assert all[|s.rrob| + i] == s.late[i];
      }
    }

    method ExecuteRetired(j: nat) returns (ok: bool)
      requires Valid()
      modifies this, core`windowSize
      ensures ok <==> old(Takes(Action.ExecuteRetired(j)))
      ensures Shape()
      ensures if ok then Step(old(Now()), Action.ExecuteRetired(j), Now(), core.maxWin) else Now() == old(Now())
    {
      hide FastQueue.Contents, IsPow2;
      ok := j < |late|;
      if ok {
        KnownLate(j);
        var r := core.Executed(late[j]);
        late := late[..j] + late[j + 1..];
      }
    }

    method Pass() returns (ok: bool)
      requires Valid()
      modifies core.rob, rrob, rrob.pipe
      ensures ok <==> old(Takes(Action.Pass))
      ensures Shape() && core.rob.pipe == old(core.rob.pipe) && rrob.pipe == old(rrob.pipe)
      ensures if ok then Step(old(Now()), Action.Pass, Now(), core.maxWin) else Now() == old(Now())
    {
      hide FastQueue.Contents, IsPow2;
      ok := core.rob.nElems != 0 && rrob.nElems <= rrob.pipeMask;
      if ok {
        var e := core.rob.Top();
        rrob.Push(e);
        core.rob.Pop();
      }
    }

    method RetireTransient() returns (ok: bool)
      requires Valid()
      modifies core, core.rob
      ensures ok <==> old(Takes(Action.RetireTransient))
      ensures Shape() && core.rob.pipe == old(core.rob.pipe)
      ensures if ok then Step(old(Now()), Action.RetireTransient, Now(), core.maxWin) else Now() == old(Now())
    {
      hide FastQueue.Contents, IsPow2;
      ok := false;
      if core.rob.nElems != 0 {
        var e := core.rob.Top();
        KnownCluster(Now().rob, Now().rrob + Now().late, Now().pools, core.maxWin, regs, 0);
        if e.renamed && e.delEntry {
          core.Retire(e);
          core.rob.Pop();
          ok := true;
        }
      }
    }

    method Retire() returns (ok: bool)
      requires Valid()
      modifies this, core, rrob
      ensures ok <==> old(Takes(Action.Retire))
      ensures Shape() && rrob.pipe == old(rrob.pipe)
      ensures if ok then Step(old(Now()), Action.Retire, Now(), core.maxWin) else Now() == old(Now())
    {
      hide FastQueue.Contents, IsPow2;
      ok := false;
      if rrob.nElems != 0 {
        var e := rrob.Top();
        KnownLate(0);
        if e.renamed {
          core.Retire(e);
          rrob.Pop();
          late := StillLate(e, late);
          ok := true;
        }
      }
    }

    method Flush()
      requires Valid()
      modifies core, core.rob, core.rob.pipe
      ensures Shape() && core.rob.pipe == old(core.rob.pipe)
      ensures Step(old(Now()), Action.Flush, Now(), core.maxWin)
    {
      core.FlushTransientFromRob();
    }

    method Idle()
      requires Valid()
      ensures Shape() && Step(old(Now()), Refused, Now(), core.maxWin)
    {
    }

    // What happens takes place if its unit allows it.
    method Happen(a: Action) returns (ok: bool)
      requires Valid()
      modifies this, core, core.rob, core.rob.pipe, rrob, rrob.pipe
      ensures Valid() && core.rob.pipe == old(core.rob.pipe) && rrob.pipe == old(rrob.pipe)
      ensures ok <==> old(Takes(a))
      ensures if ok then Step(old(Now()), a, Now(), core.maxWin) else Now() == old(Now())
    {
      ok := Dispatch(a);
      if ok {
        StepConserves(old(Now()), a, Now(), core.maxWin, regs);
      }
    }

    method Dispatch(a: Action) returns (ok: bool)
      requires Valid()
      modifies this, core, core.rob, core.rob.pipe, rrob, rrob.pipe
      ensures Shape() && core.rob.pipe == old(core.rob.pipe) && rrob.pipe == old(rrob.pipe)
      ensures ok <==> old(Takes(a))
      ensures if ok then Step(old(Now()), a, Now(), core.maxWin) else Now() == old(Now())
    {
      hide Step, Balanced;
      match a
      case Add(e) =>
        ok := false;
        if Fresh(e) {
          ok := Add(e);
        }
      case Refused =>
        Idle();
        ok := true;
      case Issue(i) => ok := Issue(i);
      case Execute(i) => ok := Execute(i);
      case ExecuteLate(i) => ok := ExecuteLate(i);
      case ExecuteRetired(j) => ok := ExecuteRetired(j);
      case Pass => ok := Pass();
      case RetireTransient => ok := RetireTransient();
      case Retire => ok := Retire();
      case Flush =>
        Flush();
        ok := true;
    }
  }

  // Who is taken: a new instruction while its cluster has a slot and a register and the buffer has room,
  // and everybody else who is where the event says.
  ghost predicate Allows(s: State, a: Action, room: nat, rroom: nat) {
    match a
    case Add(e) =>
      && Fresh(e) && e.cluster < |s.pools.win| && e.cluster < |s.pools.reg| && |s.rob| < room
      && 0 < s.pools.win[e.cluster] && 0 < s.pools.reg[e.cluster]
    case Issue(i) => i < |s.rob| && s.rob[i].renamed
    case Execute(i) => i < |s.rob| && s.rob[i].renamed
    case ExecuteLate(i) => i < |s.rrob| && s.rrob[i].renamed
    case ExecuteRetired(j) => j < |s.late|
    case Pass => s.rob != [] && |s.rrob| < rroom
    case RetireTransient => s.rob != [] && s.rob[0].renamed && s.rob[0].delEntry
    case Retire => s.rrob != [] && s.rrob[0].renamed
    case Flush => true
    case Refused => true
  }

  // An event takes place exactly if its unit allows it.
  ghost predicate Answers(s: State, e: Action, a: Action, room: nat, rroom: nat) {
    a == if Allows(s, e, room, rroom) then e else Refused
  }

  lemma TookPlace(s: State, e: Action, t: State, ok: bool, max: seq<int>)
    requires if ok then Step(s, e, t, max) else t == s
    ensures Step(s, if ok then e else Refused, t, max)
  {
  }

  // From power-on, any sequence of events is a run, which conserves slots and registers.
  method Simulate(size: nat, win: seq<int>, regs: seq<int>, events: seq<Action>)
      returns (b: Backend, ghost states: seq<State>, ghost actions: seq<Action>)
    requires 0 < size < 256 * 1024 && |win| == |regs| && forall c | 0 <= c < |win| :: 0 <= win[c] && 0 <= regs[c]
    ensures b.Valid() && Run(states, actions, win, regs) && states[|actions|] == b.Now()
    ensures Balanced(b.Now(), win, regs) && size <= b.core.rob.pipe.Length && size <= b.rrob.pipe.Length
    ensures Answered(states, events, actions, b.core.rob.pipe.Length, b.rrob.pipe.Length)
  {
    hide Step, Balanced, Answered, Run;
    b := new Backend(size, win, regs);
    ghost var room, rroom := b.core.rob.pipe.Length, b.rrob.pipe.Length;
    states, actions := [b.Now()], [];
    NothingYet(b.Now(), events, win, regs, room, rroom);
    for n := 0 to |events|
      invariant b.Valid() && b.core.maxWin == win && b.regs == regs
      invariant fresh(b) && fresh(b.core) && fresh(b.core.rob) && fresh(b.rrob)
      invariant fresh(b.core.rob.pipe) && fresh(b.rrob.pipe)
      invariant room == b.core.rob.pipe.Length && rroom == b.rrob.pipe.Length
      invariant Run(states, actions, win, regs) && Answered(states, events[..n], actions, room, rroom)
      invariant |states| == n + 1 && states[n] == b.Now() && |actions| == n
    {
      ghost var s := b.Now();
      var ok := b.Happen(events[n]);
      OneMore(states, events, actions, n, b.Now(), ok, win, regs, room, rroom);
      states, actions := states + [b.Now()], actions + [if ok then events[n] else Refused];
    }
    assert events[..|events|] == events;
  }

  ghost predicate Answered(states: seq<State>, events: seq<Action>, actions: seq<Action>, room: nat, rroom: nat) {
    && |states| == |events| + 1 && |actions| == |events|
    && forall n | 0 <= n < |events| :: Answers(states[n], events[n], actions[n], room, rroom)
  }

  lemma NothingYet(s: State, events: seq<Action>, max: seq<int>, regs: seq<int>, room: nat, rroom: nat)
    requires s == State([], [], [], Pools(max, regs)) && |max| == |regs|
    requires forall c | 0 <= c < |max| :: 0 <= max[c] && 0 <= regs[c]
    ensures Run([s], [], max, regs) && Answered([s], events[..0], [], room, rroom)
  {
  }

  lemma OneMore(states: seq<State>, events: seq<Action>, actions: seq<Action>, n: nat, t: State, ok: bool,
      max: seq<int>, regs: seq<int>, room: nat, rroom: nat)
    requires n < |events| && Run(states, actions, max, regs) && Answered(states, events[..n], actions, room, rroom)
    requires ok <==> Allows(states[n], events[n], room, rroom)
    requires if ok then Step(states[n], events[n], t, max) else t == states[n]
    ensures var a := if ok then events[n] else Refused;
            && Run(states + [t], actions + [a], max, regs)
            && Answered(states + [t], events[..n + 1], actions + [a], room, rroom)
  {
    hide Step, Allows;
    var a := if ok then events[n] else Refused;
    TookPlace(states[n], events[n], t, ok, max);
    RunOn(states, actions, a, t, max, regs);
    var ss, es, aa := states + [t], events[..n + 1], actions + [a];
    forall k | 0 <= k < |es|
      ensures Answers(ss[k], es[k], aa[k], room, rroom)
    {
      assert k < n ==> Answers(states[k], events[..n][k], actions[k], room, rroom);
    }
  }

  lemma RunOn(states: seq<State>, actions: seq<Action>, a: Action, t: State, max: seq<int>, regs: seq<int>)
    requires Run(states, actions, max, regs) && Step(states[|actions|], a, t, max)
    ensures Run(states + [t], actions + [a], max, regs)
  {
    hide Step;
    var ss, aa := states + [t], actions + [a];
    forall k: nat | k < |aa|
      ensures Step(ss[k], aa[k], ss[k + 1], max)
    {
      assert k < |actions| ==> Step(states[k], actions[k], states[k + 1], max);
    }
  }
}
