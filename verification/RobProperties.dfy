/**
 What a flush leaves in the reorder buffer, and that it neither loses nor
 duplicates a window slot or a register.
 */
module RobProperties {
  import opened RobFlush

  function Rev(s: seq<Inst>): (r: seq<Inst>)
    ensures |r| == |s|
  {
    if s == [] then [] else [s[|s| - 1]] + Rev(s[..|s| - 1])
  }

  lemma {:induction false} RevAppend(s: seq<Inst>, e: Inst)
    ensures Rev(s + [e]) == [e] + Rev(s)
  {
    assert (s + [e])[..|s|] == s;
  }

  // The instructions that the second loop puts back, oldest first.
  function Back(s: seq<Inst>): seq<Inst> {
    if s == [] then [] else RobAfter(s[0], []) + Back(s[1..])
  }

  lemma {:induction false} UnstackedIsBack(stack: seq<Inst>, rob: seq<Inst>)
    ensures Unstacked(stack, rob) == rob + Back(Rev(stack))
    decreases |stack|
  {
    if stack != [] {
      var e := stack[|stack| - 1];
      UnstackedIsBack(stack[..|stack| - 1], RobAfter(e, rob));
      assert Rev(stack)[1..] == Rev(stack[..|stack| - 1]);
      assert RobAfter(e, rob) == rob + RobAfter(e, []);
    }
  }

  // ---- Who survives ----

  // The first loop's image of an instruction, for those that stay.
  function First(e: Inst): seq<Inst> {
    if !e.transient || (Flushable(e) && e.tryFlush) then [e]
    else if Flushable(e) then [Marked(e)]
    else []
  }

  function Firsts(rob: seq<Inst>): seq<Inst> {
    if rob == [] then [] else First(rob[0]) + Firsts(rob[1..])
  }

  function Norm(e: Inst): Inst { e.(nDeps := 0) }

  // Equal but for nDeps, which flushed producers count down.
  ghost predicate SameButDeps(s: seq<Inst>, t: seq<Inst>) {
    |s| == |t| && forall i | 0 <= i < |s| :: Norm(s[i]) == Norm(t[i])
  }

  lemma {:induction false} DrainSame(s: seq<Inst>, ids: seq<nat>)
    ensures SameButDeps(Drain(s, ids), s)
    decreases |ids|
  {
    if ids != [] {
      var t := DrainOne(s, ids[0]);
      DrainSame(t, ids[1..]);
      assert SameButDeps(t, s);
    }
  }

  lemma {:induction false} FirstsAppend(s: seq<Inst>, e: Inst)
    ensures Firsts(s + [e]) == Firsts(s) + First(e)
  {
    if s == [] {
      assert (s + [e])[1..] == [];
    } else {
      assert (s + [e])[1..] == s[1..] + [e];
      FirstsAppend(s[1..], e);
    }
  }

  lemma SameJoin(a: seq<Inst>, fi: seq<Inst>, fe: seq<Inst>, rn: seq<Inst>, rs: seq<Inst>)
    requires SameButDeps(a, fi + rn) && SameButDeps(rn, fe + rs)
    ensures SameButDeps(a, fi + fe + rs)
  {
  }

  lemma StackAfterSame(e: Inst, stack: seq<Inst>)
    ensures SameButDeps(Rev(StackAfter(e, stack)), First(e) + Rev(stack))
  {
    if First(e) == [] {
      DrainSame(stack, e.pending);
      RevSame(StackAfter(e, stack), stack);
      assert First(e) + Rev(stack) == Rev(stack);
    } else {
      RevAppend(stack, First(e)[0]);
    }
  }

  // The stack holds the first images in program order, oldest on top.
  lemma {:induction false} StackedIsFirsts(rob: seq<Inst>, stack: seq<Inst>)
    ensures SameButDeps(Rev(Stacked(rob, stack)), Firsts(rob) + Rev(stack))
    decreases |rob|
  {
    if rob == [] {
      assert Firsts(rob) + Rev(stack) == Rev(stack);
    } else {
      var init, e := rob[..|rob| - 1], rob[|rob| - 1];
      var next := StackAfter(e, stack);
      assert rob == init + [e];
      FirstsAppend(init, e);
      StackedIsFirsts(init, next);
      StackAfterSame(e, stack);
      SameJoin(Rev(Stacked(init, next)), Firsts(init), First(e), Rev(next), Rev(stack));
    }
  }

  lemma {:induction false} RevSame(s: seq<Inst>, t: seq<Inst>)
    requires SameButDeps(s, t)
    ensures SameButDeps(Rev(s), Rev(t))
  {
    if s != [] {
      RevSame(s[..|s| - 1], t[..|t| - 1]);
    }
  }

  // What the code assumes of the buffer: renamed instructions only, transient ones never retired,
  // and the flush marks only on transient ones.
  ghost predicate Flushing(e: Inst) {
    && e.renamed && (e.transient ==> !e.retired) && (e.flushTransient ==> e.transient)
    && (e.tryFlush ==> e.delEntry)
  }

  predicate Survives(e: Inst) { !e.transient || !e.executed }

  function Survivors(rob: seq<Inst>): seq<Inst> {
    if rob == [] then [] else (if Survives(rob[0]) then [rob[0]] else []) + Survivors(rob[1..])
  }

  function Flagged(e: Inst): Inst { if e.transient && !e.tryFlush then Marked(e) else e }

  // Flushing keeps, in program order, just the non-transient and the not yet executed instructions.
  // Only flush marks and dependence counts of transient ones change.
  lemma FlushKeepsSurvivors(rob: seq<Inst>)
    requires forall e | e in rob :: Flushing(e)
    ensures |Flushed(rob)| == |Survivors(rob)|
    ensures forall i | 0 <= i < |Flushed(rob)| ::
              Norm(Flushed(rob)[i]) == Norm(Flagged(Survivors(rob)[i]))
  {
    var t := Rev(Stacked(rob, []));
    UnstackedIsBack(Stacked(rob, []), []);
    StackedIsFirsts(rob, []);
    assert Firsts(rob) + Rev([]) == Firsts(rob);
    FirstsAreSurvivors(rob);
    BackKeepsAll(t);
  }

  // ---- Marks and counts of those that stay ----

  // How many of its producers an instruction loses when rob is flushed: each destroyed one lets go
  // of all that wait for it.
  function Freed(rob: seq<Inst>, id: nat): nat {
    if rob == [] then 0 else
      var e := rob[|rob| - 1];
      Freed(rob[..|rob| - 1], id) + if e.transient && !e.retired && e.executed then multiset(e.pending)[id] else 0
  }

  function Less(s: seq<Inst>, rob: seq<Inst>): (t: seq<Inst>)
    ensures |t| == |s| && forall i | 0 <= i < |s| :: t[i] == s[i].(nDeps := s[i].nDeps - Freed(rob, s[i].id))
  {
    seq(|s|, i requires 0 <= i < |s| => s[i].(nDeps := s[i].nDeps - Freed(rob, s[i].id)))
  }

  // What stays, each with the dependences that older destroyed instructions leave it.
  function Left(rob: seq<Inst>): seq<Inst> {
    if rob == [] then [] else Left(rob[..|rob| - 1]) + Less(First(rob[|rob| - 1]), rob[..|rob| - 1])
  }

  lemma {:induction false} DrainAt(s: seq<Inst>, ids: seq<nat>, i: nat)
    requires i < |s|
    ensures Drain(s, ids)[i] == s[i].(nDeps := s[i].nDeps - multiset(ids)[s[i].id])
    decreases |ids|
  {
    hide Drain, DrainOne;
    DrainSteps(s, ids);
    if ids != [] {
      var t := DrainOne(s, ids[0]);
      OneDrained(s, ids[0], i);
      DrainAt(t, ids[1..], i);
      CountFirst(ids, s[i].id);
    }
  }

  lemma DrainSteps(s: seq<Inst>, ids: seq<nat>)
    ensures Drain(s, ids) == if ids == [] then s else Drain(DrainOne(s, ids[0]), ids[1..])
  {
  }

  lemma OneDrained(s: seq<Inst>, id: nat, i: nat)
    requires i < |s|
    ensures DrainOne(s, id)[i] == if s[i].id == id then s[i].(nDeps := s[i].nDeps - 1) else s[i]
  {
  }

  lemma CountFirst(ids: seq<nat>, id: nat)
    requires ids != []
    ensures multiset(ids)[id] == multiset(ids[1..])[id] + if ids[0] == id then 1 else 0
  {
    assert ids == [ids[0]] + ids[1..];
  }

  // The stack after the first loop, exactly.
  lemma {:induction false} StackedExactly(rob: seq<Inst>, stack: seq<Inst>)
    ensures Rev(Stacked(rob, stack)) == Left(rob) + Less(Rev(stack), rob)
    decreases |rob|
  {
    hide Stacked, StackAfter, Left, Less, First, Rev;
    if rob == [] {
      NothingLeft(stack);
    } else {
      var init, e := rob[..|rob| - 1], rob[|rob| - 1];
      assert rob == init + [e];
      StackedExactly(init, StackAfter(e, stack));
      NextExactly(init, e, stack);
      LeftSteps(init, e, stack);
      assert Left(init) + (Less(First(e), init) + Less(Rev(stack), rob)) == Left(rob) + Less(Rev(stack), rob);
    }
  }

  lemma NothingLeft(stack: seq<Inst>)
    ensures Stacked([], stack) == stack && Left([]) == [] && Less(Rev(stack), []) == Rev(stack)
  {
  }

  lemma LeftSteps(init: seq<Inst>, e: Inst, stack: seq<Inst>)
    ensures Stacked(init + [e], stack) == Stacked(init, StackAfter(e, stack))
    ensures Left(init + [e]) == Left(init) + Less(First(e), init)
  {
    var rob := init + [e];
    assert rob[..|rob| - 1] == init && rob[|rob| - 1] == e;
  }

  lemma NextExactly(init: seq<Inst>, e: Inst, stack: seq<Inst>)
    ensures Less(Rev(StackAfter(e, stack)), init) == Less(First(e), init) + Less(Rev(stack), init + [e])
  {
    if Destroyed(e) {
      DestroyedExactly(init, e, stack);
    } else {
      SameLess(init, e, Rev(stack));
      if First(e) != [] {
        RevAppend(stack, First(e)[0]);
        LessJoin(First(e), Rev(stack), init);
      }
    }
  }

  lemma LessJoin(s: seq<Inst>, t: seq<Inst>, rob: seq<Inst>)
    ensures Less(s + t, rob) == Less(s, rob) + Less(t, rob)
  {
  }

  lemma SameLess(init: seq<Inst>, e: Inst, s: seq<Inst>)
    requires !Destroyed(e)
    ensures Less(s, init + [e]) == Less(s, init)
  {
    SameFreed(init, e);
  }

  lemma SameFreed(init: seq<Inst>, e: Inst)
    ensures forall id :: Freed(init + [e], id) == Freed(init, id) + if Destroyed(e) then multiset(e.pending)[id] else 0
  {
    assert (init + [e])[..|init|] == init;
  }

  lemma DestroyedExactly(init: seq<Inst>, e: Inst, stack: seq<Inst>)
    requires Destroyed(e)
    ensures Less(Rev(Drain(stack, e.pending)), init) == Less(Rev(stack), init + [e])
  {
    hide Rev, Drain, Freed;
    var next, rob := Drain(stack, e.pending), init + [e];
    SameFreed(init, e);
    forall i | 0 <= i < |stack|
      ensures Less(Rev(next), init)[i] == Less(Rev(stack), rob)[i]
    {
      RevIndex(next, i);
      RevIndex(stack, i);
      DrainAt(stack, e.pending, |stack| - 1 - i);
    }
  }

  // The instruction f that stays of e, among rob: the flush marks say how far a transient one had come,
  // its slot and register are given back, and it waits for fewer producers.
  ghost predicate StaysAs(e: Inst, f: Inst, rob: seq<Inst>, i: nat)
    requires i < |rob|
  {
    var marked := e.transient && !e.tryFlush;
    && f.id == e.id && f.cluster == e.cluster && f.transient == e.transient && f.pending == e.pending
    && f.executed == e.executed && f.issued == e.issued && f.executing == e.executing && f.hasDst == e.hasDst
    && (f.flushTransient <==> e.flushTransient || (marked && (e.executing || e.issued)))
    && (f.delEntry <==> e.delEntry || e.transient)
    && (f.tryFlush <==> if marked then e.hasDst else e.tryFlush)
    && f.nDeps == e.nDeps - Freed(rob[..i], e.id)
  }

  // Which instruction stays at place k of what is left.
  ghost predicate Places(rob: seq<Inst>, left: seq<Inst>, at: seq<nat>) {
    && |at| == |left| && (forall j, k | 0 <= j < k < |at| :: at[j] < at[k])
    && (forall k | 0 <= k < |at| :: PlacedAs(rob, left[k], at[k]))
    && forall i: nat | i < |rob| && Survives(rob[i]) :: i in at
  }

  ghost predicate PlacedAs(rob: seq<Inst>, f: Inst, i: nat) {
    i < |rob| && Survives(rob[i]) && StaysAs(rob[i], f, rob, i)
  }

  lemma PlacedAmongMore(init: seq<Inst>, e: Inst, f: Inst, i: nat)
    requires PlacedAs(init, f, i)
    ensures PlacedAs(init + [e], f, i)
  {
    assert (init + [e])[..i] == init[..i];
  }

  // One more instruction stays if it survives.
  lemma LeftMore(init: seq<Inst>, e: Inst) returns (f: Inst)
    requires Flushing(e)
    ensures Left(init + [e]) == Left(init) + if Survives(e) then [f] else []
    ensures Survives(e) ==> PlacedAs(init + [e], f, |init|)
  {
    hide Left, Freed, First, Survives, Flushing, PlacedAs, Flagged;
    FirstIsKept(e);
    LeftSteps(init, e, []);
    f := e;
    if Survives(e) {
      f := Less([Flagged(e)], init)[0];
      assert Less([Flagged(e)], init) == [f];
      FlaggedStays(init, e, f);
    } else {
      assert Less([], init) == [];
    }
  }

  lemma FlaggedStays(init: seq<Inst>, e: Inst, f: Inst)
    requires Flushing(e) && Survives(e) && f == Flagged(e).(nDeps := Flagged(e).nDeps - Freed(init, Flagged(e).id))
    ensures PlacedAs(init + [e], f, |init|)
  {
    hide Freed;
    assert (init + [e])[..|init|] == init;
  }

  // The flush leaves exactly the survivors, in their order, marked and counted like this.
  lemma FlushLeaves(rob: seq<Inst>) returns (at: seq<nat>)
    requires forall e | e in rob :: Flushing(e)
    ensures Places(rob, Flushed(rob), at)
  {
    StackedExactly(rob, []);
    assert Left(rob) + Less(Rev([]), rob) == Left(rob);
    UnstackedIsBack(Stacked(rob, []), []);
    at := LeftPlaces(rob);
    forall k | 0 <= k < |Left(rob)|
      ensures !Leaves(Left(rob)[k]) && (Left(rob)[k].transient ==> Left(rob)[k].delEntry)
    {
      assert PlacedAs(rob, Left(rob)[k], at[k]) && Flushing(rob[at[k]]);
    }
    BackKeepsAll(Left(rob));
  }

  lemma {:induction false} LeftPlaces(rob: seq<Inst>) returns (at: seq<nat>)
    requires forall e | e in rob :: Flushing(e)
    ensures Places(rob, Left(rob), at)
  {
    at := [];
    if rob != [] {
      hide Places, PlacedAs, Left;
      var n := |rob| - 1;
      var init, e := rob[..n], rob[n];
      assert rob == init + [e] && Flushing(e);
      var was := LeftPlaces(init);
      var f := LeftMore(init, e);
      at := PlacesMore(init, e, f, Left(init), was);
    }
  }

  lemma PlacesMore(init: seq<Inst>, e: Inst, f: Inst, left: seq<Inst>, was: seq<nat>) returns (at: seq<nat>)
    requires Places(init, left, was) && (Survives(e) ==> PlacedAs(init + [e], f, |init|))
    ensures Places(init + [e], left + if Survives(e) then [f] else [], at)
  {
    hide PlacedAs, Survives;
    var rob, now := init + [e], left + if Survives(e) then [f] else [];
    PlacedBelow(init, left, was);
    at := if Survives(e) then was + [|init|] else was;
    forall k | 0 <= k < |at|
      ensures PlacedAs(rob, now[k], at[k])
    {
      if k < |was| {
        PlacedAmongMore(init, e, left[k], was[k]);
      }
    }
    forall i: nat | i < |rob| && Survives(rob[i])
      ensures i in at
    {
      assert i < |init| ==> rob[i] == init[i];
    }
  }

  lemma PlacedBelow(rob: seq<Inst>, left: seq<Inst>, at: seq<nat>)
    requires Places(rob, left, at)
    ensures forall k | 0 <= k < |at| :: at[k] < |rob|
  {
    hide StaysAs;
    assert forall k | 0 <= k < |at| :: PlacedAs(rob, left[k], at[k]);
  }

  // Nobody leaves the buffer in the second loop: the first has destroyed every executed transient.
  lemma SecondLoopDropsNobody(rob: seq<Inst>)
    requires forall e | e in rob :: Flushing(e)
    ensures forall e | e in Stacked(rob, []) :: !Leaves(e)
  {
    var t := Stacked(rob, []);
    StackedIsFirsts(rob, []);
    assert Firsts(rob) + Rev([]) == Firsts(rob);
    FirstsAreSurvivors(rob);
    forall i | 0 <= i < |t|
      ensures !Leaves(t[i])
    {
      RevIndex(t, |t| - 1 - i);
      assert Kept(Firsts(rob)[|t| - 1 - i], Survivors(rob)[|t| - 1 - i]);
    }
  }

  lemma NothingReversed()
    ensures Rev([]) == []
  {
  }

  // Whatever the marks, whoever leaves there is transient only if it is marked retired.
  lemma LeavesOnlyRetired(rob: seq<Inst>, e: Inst)
    requires e in Stacked(rob, []) && Leaves(e)
    ensures e.transient ==> e.retired
  {
    hide Stacked, Firsts, Rev;
    var t := Stacked(rob, []);
    var i :| 0 <= i < |t| && t[i] == e;
    NothingReversed();
    StackedIsFirsts(rob, []);
    assert Firsts(rob) + Rev([]) == Firsts(rob);
    RevIndex(t, |t| - 1 - i);
    FirstsUndestroyed(rob, Firsts(rob)[|t| - 1 - i]);
  }

  lemma {:induction false} FirstsAreSurvivors(rob: seq<Inst>)
    requires forall e | e in rob :: Flushing(e)
    ensures AllKept(Firsts(rob), Survivors(rob))
  {
    if rob != [] {
      assert Flushing(rob[0]);
      FirstsAreSurvivors(rob[1..]);
      FirstIsKept(rob[0]);
      if Survives(rob[0]) {
        KeptAlso(rob[0], Firsts(rob[1..]), Survivors(rob[1..]));
      }
    }
  }

  // f is what the first loop leaves of the survivor e.
  ghost predicate Kept(f: Inst, e: Inst) {
    Survives(e) && Flushing(e) && f == Flagged(e)
  }

  ghost predicate AllKept(f: seq<Inst>, s: seq<Inst>) {
    |f| == |s| && forall i | 0 <= i < |f| :: Kept(f[i], s[i])
  }

  lemma KeptAlso(e: Inst, f: seq<Inst>, s: seq<Inst>)
    requires AllKept(f, s) && Survives(e) && Flushing(e)
    ensures AllKept([Flagged(e)] + f, [e] + s)
  {
  }

  lemma FirstIsKept(e: Inst)
    requires Flushing(e)
    ensures First(e) == if Survives(e) then [Flagged(e)] else []
  {
  }

  lemma {:induction false} BackKeepsAll(s: seq<Inst>)
    requires forall i | 0 <= i < |s| :: !Leaves(s[i]) && (s[i].transient ==> s[i].delEntry)
    ensures Back(s) == s
  {
    if s != [] {
      BackKeepsAll(s[1..]);
    }
  }

  // No executed transient is left, whatever its flags, unless it was marked retired.
  lemma NoExecutedTransientLeft(rob: seq<Inst>, f: Inst)
    requires f in Flushed(rob) && f.transient && f.executed
    ensures f.retired
  {
    UnstackedIsBack(Stacked(rob, []), []);
    StackedIsFirsts(rob, []);
    assert Firsts(rob) + Rev([]) == Firsts(rob);
    var e := BackFrom(Rev(Stacked(rob, [])), f);
    var i :| 0 <= i < |Rev(Stacked(rob, []))| && Rev(Stacked(rob, []))[i] == e;
    FirstsUndestroyed(rob, Firsts(rob)[i]);
  }

  lemma {:induction false} BackFrom(s: seq<Inst>, f: Inst) returns (e: Inst)
    requires f in Back(s)
    ensures e in s && f == e.(delEntry := e.delEntry || e.transient)
  {
    if f in RobAfter(s[0], []) {
      e := s[0];
    } else {
      e := BackFrom(s[1..], f);
    }
  }

  lemma {:induction false} FirstsUndestroyed(rob: seq<Inst>, f: Inst)
    requires f in Firsts(rob)
    ensures f.transient && f.executed ==> f.retired
  {
    if f in Firsts(rob[1..]) {
      FirstsUndestroyed(rob[1..], f);
    }
  }

  // ---- Non-transient instructions ----

  function NonTransient(s: seq<Inst>): seq<Inst> {
    if s == [] then [] else (if s[0].transient then [] else [s[0]]) + NonTransient(s[1..])
  }

  lemma {:induction false} NonTransientJoin(s: seq<Inst>, t: seq<Inst>)
    ensures NonTransient(s + t) == NonTransient(s) + NonTransient(t)
  {
    if s == [] {
      assert s + t == t;
    } else {
      assert (s + t)[1..] == s[1..] + t;
      NonTransientJoin(s[1..], t);
    }
  }

  // Dependents of transient instructions are transient.
  ghost predicate LinkOk(e: Inst, f: Inst) { e.transient && f.id in e.pending ==> f.transient }

  ghost predicate WellLinked(rob: seq<Inst>, all: seq<Inst>) {
    forall i, j | 0 <= i < |rob| && 0 <= j < |all| :: LinkOk(rob[i], all[j])
  }

  ghost predicate MarkOk(e: Inst) { e.flushTransient ==> e.transient }

  ghost predicate Unmarked(s: seq<Inst>) { forall i | 0 <= i < |s| :: MarkOk(s[i]) }

  ghost predicate AlikeAt(e: Inst, f: Inst) {
    e.id == f.id && e.transient == f.transient && (!e.transient ==> e == f)
  }

  ghost predicate Alike(s: seq<Inst>, t: seq<Inst>) {
    |s| == |t| && forall i | 0 <= i < |s| :: AlikeAt(s[i], t[i])
  }

  ghost predicate Hits(e: Inst, ids: seq<nat>) { e.id in ids ==> e.transient }

  lemma {:induction false} DrainAlike(s: seq<Inst>, ids: seq<nat>)
    requires forall i | 0 <= i < |s| :: Hits(s[i], ids)
    ensures Alike(Drain(s, ids), s)
    decreases |ids|
  {
    if ids != [] {
      var t := DrainOne(s, ids[0]);
      assert ids == [ids[0]] + ids[1..];
      forall i | 0 <= i < |s|
        ensures AlikeAt(t[i], s[i]) && Hits(t[i], ids[1..])
      {
        assert Hits(s[i], ids);
      }
      DrainAlike(t, ids[1..]);
      AlikeTrans(Drain(t, ids[1..]), t, s);
    }
  }

  lemma AlikeTrans(s: seq<Inst>, t: seq<Inst>, u: seq<Inst>)
    requires Alike(s, t) && Alike(t, u)
    ensures Alike(s, u)
  {
    forall i | 0 <= i < |s|
      ensures AlikeAt(s[i], u[i])
    {
      assert AlikeAt(s[i], t[i]) && AlikeAt(t[i], u[i]);
    }
  }

  lemma {:induction false} AlikeNonTransient(s: seq<Inst>, t: seq<Inst>)
    requires Alike(s, t)
    ensures NonTransient(s) == NonTransient(t)
  {
    if s != [] {
      assert AlikeAt(s[0], t[0]);
      forall i | 0 <= i < |s| - 1
        ensures AlikeAt(s[1..][i], t[1..][i])
      {
        assert AlikeAt(s[i + 1], t[i + 1]);
      }
      AlikeNonTransient(s[1..], t[1..]);
    }
  }

  lemma {:induction false} RevIndex(s: seq<Inst>, i: nat)
    requires i < |s|
    ensures Rev(s)[i] == s[|s| - 1 - i]
  {
    if 0 < i {
      RevIndex(s[..|s| - 1], i - 1);
    }
  }

  lemma AlikeRev(s: seq<Inst>, t: seq<Inst>)
    requires Alike(s, t)
    ensures Alike(Rev(s), Rev(t))
  {
    forall i | 0 <= i < |s|
      ensures AlikeAt(Rev(s)[i], Rev(t)[i])
    {
      RevIndex(s, i);
      RevIndex(t, i);
      assert AlikeAt(s[|s| - 1 - i], t[|s| - 1 - i]);
    }
  }

  lemma AlikeLinked(s: seq<Inst>, t: seq<Inst>, init: seq<Inst>)
    requires Alike(s, t) && Unmarked(t) && WellLinked(init, t)
    ensures Unmarked(s) && WellLinked(init, s)
  {
    forall i | 0 <= i < |s|
      ensures MarkOk(s[i]) && forall k | 0 <= k < |init| :: LinkOk(init[k], s[i])
    {
      assert AlikeAt(s[i], t[i]) && MarkOk(t[i]);
      assert forall k | 0 <= k < |init| :: LinkOk(init[k], t[i]);
    }
  }

  lemma DrainedStack(e: Inst, stack: seq<Inst>, init: seq<Inst>)
    requires e.transient && WellLinked([e], stack) && Unmarked(stack) && WellLinked(init, stack)
    ensures var next := Drain(stack, e.pending);
            Unmarked(next) && WellLinked(init, next) && NonTransient(Rev(next)) == NonTransient(Rev(stack))
  {
    var next := Drain(stack, e.pending);
    forall i | 0 <= i < |stack|
      ensures Hits(stack[i], e.pending)
    {
      assert LinkOk([e][0], stack[i]);
    }
    DrainAlike(stack, e.pending);
    AlikeLinked(next, stack, init);
    AlikeRev(next, stack);
    AlikeNonTransient(Rev(next), Rev(stack));
  }

  lemma PushedStack(f: Inst, stack: seq<Inst>, init: seq<Inst>)
    requires Unmarked(stack) && MarkOk(f) && WellLinked(init, stack) && WellLinked(init, [f])
    ensures Unmarked(stack + [f]) && WellLinked(init, stack + [f])
    ensures NonTransient(Rev(stack + [f])) == NonTransient([f]) + NonTransient(Rev(stack))
  {
    RevAppend(stack, f);
    NonTransientJoin([f], Rev(stack));
    assert forall k | 0 <= k < |init| :: LinkOk(init[k], [f][0]);
  }

  lemma StackAfterNonTransient(e: Inst, stack: seq<Inst>, init: seq<Inst>)
    requires WellLinked([e], stack) && Unmarked(stack) && MarkOk(e) && WellLinked(init, stack) && WellLinked(init, [e])
    ensures Unmarked(StackAfter(e, stack)) && WellLinked(init, StackAfter(e, stack))
    ensures NonTransient(Rev(StackAfter(e, stack))) == NonTransient([e]) + NonTransient(Rev(stack))
  {
    if Destroyed(e) {
      DrainedStack(e, stack, init);
    } else if First(e) != [] {
      var f := First(e)[0];
      forall k | 0 <= k < |init|
        ensures LinkOk(init[k], [f][0])
      {
        assert LinkOk(init[k], [e][0]);
      }
      PushedStack(f, stack, init);
    }
  }

  lemma SplitLinked(init: seq<Inst>, e: Inst, stack: seq<Inst>)
    requires Unmarked(init + [e]) && WellLinked(init + [e], init + [e]) && WellLinked(init + [e], stack)
    ensures Unmarked(init) && MarkOk(e) && WellLinked(init, init) && WellLinked(init, stack)
    ensures WellLinked(init, [e]) && WellLinked([e], stack)
  {
    var rob := init + [e];
    assert MarkOk(rob[|init|]);
    forall i | 0 <= i < |init|
      ensures MarkOk(init[i]) && LinkOk(init[i], [e][0])
      ensures forall j | 0 <= j < |init| :: LinkOk(init[i], init[j])
      ensures forall j | 0 <= j < |stack| :: LinkOk(init[i], stack[j])
    {
      assert MarkOk(rob[i]) && LinkOk(rob[i], rob[|init|]);
      forall j | 0 <= j < |init|
        ensures LinkOk(init[i], init[j])
      {
        assert LinkOk(rob[i], rob[j]);
      }
      assert forall j | 0 <= j < |stack| :: LinkOk(rob[i], stack[j]);
    }
    assert forall j | 0 <= j < |stack| :: LinkOk(rob[|init|], stack[j]);
  }

  lemma {:induction false} StackedNonTransient(rob: seq<Inst>, stack: seq<Inst>)
    requires Unmarked(rob) && Unmarked(stack) && WellLinked(rob, rob) && WellLinked(rob, stack)
    ensures Unmarked(Stacked(rob, stack))
    ensures NonTransient(Rev(Stacked(rob, stack))) == NonTransient(rob) + NonTransient(Rev(stack))
    decreases |rob|
  {
    if rob != [] {
      var init, e := rob[..|rob| - 1], rob[|rob| - 1];
      assert rob == init + [e];
      SplitLinked(init, e, stack);
      StackAfterNonTransient(e, stack, init);
      StackedNonTransient(init, StackAfter(e, stack));
      NonTransientJoin(init, [e]);
    }
  }

  lemma {:induction false} BackNonTransient(s: seq<Inst>)
    requires Unmarked(s)
    ensures NonTransient(Back(s)) == NonTransient(s)
  {
    if s != [] {
      assert MarkOk(s[0]);
      assert forall i | 0 <= i < |s| - 1 :: s[1..][i] == s[i + 1] && MarkOk(s[i + 1]);
      BackNonTransient(s[1..]);
      NonTransientJoin(RobAfter(s[0], []), Back(s[1..]));
    }
  }

  // A flush leaves the non-transient instructions as they were, in program order.
  lemma NonTransientUntouched(rob: seq<Inst>)
    requires Unmarked(rob) && WellLinked(rob, rob)
    ensures NonTransient(Flushed(rob)) == NonTransient(rob)
  {
    var stack := Stacked(rob, []);
    StackedNonTransient(rob, []);
    UnstackedIsBack(stack, []);
    forall i | 0 <= i < |stack|
      ensures MarkOk(Rev(stack)[i])
    {
      RevIndex(stack, i);
      assert MarkOk(stack[|stack| - 1 - i]);
    }
    BackNonTransient(Rev(stack));
    assert Rev([]) == [] && NonTransient(rob) + NonTransient([]) == NonTransient(rob);
    assert [] + Back(Rev(stack)) == Back(Rev(stack));
  }
}
