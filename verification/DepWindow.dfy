/**
 The scheduling window: instructions are linked to their producers at rename,
 and an executing producer wakes up the instructions that waited only for it.

 The window is a pool of instruction objects whose nodes are linked into the lists of their
 producers.  Inst is the abstract value of one of them, with its list as a sequence of slots;
 class DepWindow keeps the objects and these values in step.
 */
module DepWindows {
  import opened Dependences

  datatype Inst = Inst(
    src: seq<int>,          // the producer each slot was linked to, or -1
    used: seq<bool>,
    waiters: seq<Slot>,
    nDeps: int,
    issued: bool,
    executed: bool,
    toBeDestroyed: bool,    // a flushed instruction is dropped instead of woken
    destroyed: bool,
    selections: nat)        // calls of preSelect

  const NONE: int := -1

  function B2I(b: bool): int { if b then 1 else 0 }

  ghost predicate Shape(d: Inst) { |d.src| == 3 && |d.used| == 3 }

  // A slot is used as long as the producer it was linked to has not let it go.
  ghost predicate SlotOk(s: seq<Inst>, d: nat, k: nat)
    requires d < |s| && Shape(s[d]) && k < 3
  {
    && (s[d].src[k] != NONE ==> 0 <= s[d].src[k] < |s| && s[d].src[k] != d)
    && (s[d].used[k] ==> s[d].src[k] != NONE && Slot(d, k) in s[s[d].src[k]].waiters)
    && (s[d].src[k] != NONE && !s[d].used[k] ==> s[s[d].src[k]].executed)
  }

  ghost predicate WaiterOk(s: seq<Inst>, x: nat, w: Slot) {
    w.inst < |s| && w.k < 3 && Shape(s[w.inst]) && s[w.inst].used[w.k] && s[w.inst].src[w.k] == x
  }

  // The list of x holds the used slots linked to x, each once.
  ghost predicate ListOk(s: seq<Inst>, x: nat)
    requires x < |s|
  {
    && (forall w | w in s[x].waiters :: WaiterOk(s, x, w))
    && forall i, j | 0 <= i < j < |s[x].waiters| :: s[x].waiters[i] != s[x].waiters[j]
  }

  ghost predicate Counted(d: Inst)
    requires Shape(d)
  {
    && d.nDeps == B2I(d.used[0]) + B2I(d.used[1]) + B2I(d.used[2])
    && d.selections == B2I(d.issued) && (d.executed ==> d.issued)
    && (d.issued || d.destroyed ==> d.nDeps == 0)
    && (d.destroyed ==> d.toBeDestroyed && !d.issued)
  }

  // Nothing that is free to go is left waiting.
  ghost predicate Ready(d: Inst) { d.nDeps == 0 ==> d.issued || d.destroyed }

  ghost predicate Linked(s: seq<Inst>, d: nat)
    requires d < |s|
  {
    Shape(s[d]) && SlotOk(s, d, 0) && SlotOk(s, d, 1) && SlotOk(s, d, 2) && ListOk(s, d) && Counted(s[d])
  }

  // The invariant, but for an instruction being linked and a producer being drained.
  ghost predicate Inv(s: seq<Inst>, linking: int, waking: int) {
    && (forall d: nat | d < |s| :: Linked(s, d))
    && (forall d: nat | d < |s| && d != linking :: Ready(s[d]))
    && (forall d: nat | d < |s| && d != waking :: s[d].executed ==> s[d].waiters == [])
  }

  ghost predicate Valid(s: seq<Inst>) { Inv(s, NONE, NONE) }

  ghost predicate ProducersExecuted(s: seq<Inst>, d: nat)
    requires d < |s| && Shape(s[d])
  {
    forall k | 0 <= k < 3 && s[d].src[k] != NONE :: 0 <= s[d].src[k] < |s| && s[s[d].src[k]].executed
  }

  // An instruction has been sent to preSelect, once, exactly when every producer it was linked to
  // has executed (or, flushed meanwhile, it has been destroyed instead).
  lemma SelectedOnceWhenReady(s: seq<Inst>, d: nat)
    requires Valid(s) && d < |s|
    ensures Shape(s[d]) && s[d].selections <= 1
    ensures s[d].selections == 1 || s[d].destroyed <==> ProducersExecuted(s, d)
    ensures !s[d].toBeDestroyed ==> (s[d].selections == 1 <==> ProducersExecuted(s, d))
  {
    assert Linked(s, d) && Ready(s[d]);
    forall k: nat | k < 3 && s[d].src[k] != NONE
      ensures s[d].used[k] <==> !s[s[d].src[k]].executed
    {
      assert SlotOk(s, d, k);
    }
  }

  // Each used slot lies on exactly one list, that of its unexecuted producer.
  lemma UsedSlotOnOneList(s: seq<Inst>, d: nat, k: nat)
    requires Valid(s) && d < |s| && k < 3 && Shape(s[d]) && s[d].used[k]
    ensures 0 <= s[d].src[k] < |s| && !s[s[d].src[k]].executed
    ensures forall x: nat | x < |s| :: Slot(d, k) in s[x].waiters <==> x == s[d].src[k]
  {
    assert Linked(s, d) && SlotOk(s, d, k);
    forall x: nat | x < |s| && Slot(d, k) in s[x].waiters
      ensures x == s[d].src[k]
    {
      assert Linked(s, x) && ListOk(s, x) && WaiterOk(s, x, Slot(d, k));
    }
  }

  ghost function WithLink(s: seq<Inst>, d: nat, p: nat, k: nat): seq<Inst>
    requires d < |s| && p < |s| && d != p && k < 3 && Shape(s[d])
  {
    s[d := s[d].(src := s[d].src[k := p], used := s[d].used[k := true], nDeps := s[d].nDeps + 1)]
     [p := s[p].(waiters := s[p].waiters + [Slot(d, k)])]
  }

  lemma LinkKeepsInv(s: seq<Inst>, d: nat, p: nat, k: nat)
    requires Inv(s, d, NONE) && d < |s| && p < |s| && d != p && k < 3 && Shape(s[d])
    requires !s[p].executed && !s[d].issued && !s[d].destroyed && s[d].src[k] == NONE
    ensures Inv(WithLink(s, d, p, k), d, NONE)
  {
    var t := WithLink(s, d, p, k);
    assert Linked(s, d) && Linked(s, p);
    forall x: nat | x < |t|
      ensures Linked(t, x)
    {
      assert Linked(s, x);
      LinkLinked(s, d, p, k, x);
    }
  }

  lemma LinkLinked(s: seq<Inst>, d: nat, p: nat, k: nat, x: nat)
    requires d < |s| && p < |s| && d != p && k < 3 && x < |s| && Shape(s[d]) && Linked(s, x) && Linked(s, d)
    requires !s[p].executed && !s[d].issued && !s[d].destroyed && s[d].src[k] == NONE
    ensures Linked(WithLink(s, d, p, k), x)
  {
    assert SlotOk(s, d, k);
    LinkSlots(s, d, p, k, x);
    LinkList(s, d, p, k, x);
  }

  lemma LinkSlots(s: seq<Inst>, d: nat, p: nat, k: nat, x: nat)
    requires d < |s| && p < |s| && d != p && k < 3 && x < |s| && Shape(s[d]) && Linked(s, x)
    requires !s[p].executed
    ensures var t := WithLink(s, d, p, k);
            Shape(t[x]) && SlotOk(t, x, 0) && SlotOk(t, x, 1) && SlotOk(t, x, 2)
  {
    LinkSlot(s, d, p, k, x, 0);
    LinkSlot(s, d, p, k, x, 1);
    LinkSlot(s, d, p, k, x, 2);
  }

  lemma LinkSlot(s: seq<Inst>, d: nat, p: nat, k: nat, x: nat, j: nat)
    requires d < |s| && p < |s| && d != p && k < 3 && x < |s| && j < 3 && Shape(s[d]) && Shape(s[x]) && SlotOk(s, x, j)
    requires !s[p].executed
    ensures Shape(WithLink(s, d, p, k)[x]) && SlotOk(WithLink(s, d, p, k), x, j)
  {
  }

  lemma LinkList(s: seq<Inst>, d: nat, p: nat, k: nat, x: nat)
    requires d < |s| && p < |s| && d != p && k < 3 && x < |s| && Shape(s[d]) && Linked(s, x) && Linked(s, d)
    requires s[d].src[k] == NONE
    ensures ListOk(WithLink(s, d, p, k), x)
  {
    var t := WithLink(s, d, p, k);
    assert SlotOk(s, d, k) && !s[d].used[k];
    assert Slot(d, k) in s[x].waiters ==> WaiterOk(s, x, Slot(d, k));
    forall w | w in t[x].waiters
      ensures WaiterOk(t, x, w)
    {
      assert w in s[x].waiters ==> WaiterOk(s, x, w);
    }
  }

  lemma Appended(s: seq<Inst>, t: seq<Inst>)
    requires Valid(s) &&
        t == s + [Inst([NONE, NONE, NONE], [false, false, false], [], 0, false, false, false, false, 0)]
    ensures Inv(t, |s|, NONE)
  {
    forall x: nat | x < |t|
      ensures Linked(t, x)
    {
      if x < |s| {
        assert Linked(s, x);
        forall w | w in t[x].waiters
          ensures WaiterOk(t, x, w)
        {
          assert WaiterOk(s, x, w);
        }
        forall j: nat | j < 3
          ensures SlotOk(t, x, j)
        {
          assert SlotOk(s, x, j);
        }
      }
    }
  }

  // A producer marked executed still has its waiters; with all of them waiting, nobody is woken yet.
  lemma ExecutedKeepsInv(s: seq<Inst>, p: nat)
    requires Valid(s) && p < |s| && s[p].issued && !s[p].executed
    ensures var t := s[p := s[p].(executed := true)];
            Inv(t, NONE, p) && PartlyWoken(s, t, p, t[p].waiters)
  {
    var t := s[p := s[p].(executed := true)];
    forall x: nat | x < |t|
      ensures Linked(t, x)
      ensures x != p ==> Shape(s[x]) && t[x] == Woken(s[x], x, p, t[p].waiters)
    {
      hide Woken;
      assert Linked(s, x);
      if x != p {
        NotYetWoken(s, x, p);
      }
      forall w | w in t[x].waiters
        ensures WaiterOk(t, x, w)
      {
        assert WaiterOk(s, x, w);
      }
      forall j: nat | j < 3
        ensures SlotOk(t, x, j)
      {
        assert SlotOk(s, x, j);
      }
    }
  }

  // As long as all of them are on the list, no slot is let go.
  lemma NotYetWoken(s: seq<Inst>, x: nat, p: nat)
    requires x < |s| && p < |s| && Linked(s, x)
    ensures Woken(s[x], x, p, s[p].waiters) == s[x]
  {
    assert Woken(s[x], x, p, s[p].waiters).used == s[x].used;
  }

  ghost function WithPop(s: seq<Inst>, p: nat): seq<Inst>
    requires p < |s| && s[p].waiters != [] && WaiterOk(s, p, s[p].waiters[0])
  {
    var w := s[p].waiters[0];
    var t := s[p := s[p].(waiters := s[p].waiters[1..])];
    t[w.inst := t[w.inst].(used := t[w.inst].used[w.k := false], nDeps := t[w.inst].nDeps - 1)]
  }

  lemma PopKeepsInv(s: seq<Inst>, p: nat)
    requires Inv(s, NONE, p) && p < |s| && s[p].executed && s[p].waiters != []
    ensures WaiterOk(s, p, s[p].waiters[0]) && s[p].waiters[0].inst != p
    ensures Inv(WithPop(s, p), s[p].waiters[0].inst, p)
    ensures var r := WithPop(s, p)[s[p].waiters[0].inst]; !r.issued && !r.destroyed
  {
    var w := s[p].waiters[0];
    assert Linked(s, p) && WaiterOk(s, p, w);
    assert Linked(s, w.inst) && SlotOk(s, w.inst, w.k);
    var t := WithPop(s, p);
    forall x: nat | x < |t|
      ensures Linked(t, x)
    {
      assert Linked(s, x);
      PopLinked(s, p, x);
    }
  }

  lemma PopLinked(s: seq<Inst>, p: nat, x: nat)
    requires p < |s| && x < |s| && Linked(s, p) && Linked(s, x) && s[p].executed && s[p].waiters != []
    requires WaiterOk(s, p, s[p].waiters[0]) && s[p].waiters[0].inst != p
    ensures Linked(WithPop(s, p), x)
  {
    PopSlots(s, p, x);
    PopList(s, p, x);
  }

  lemma PopSlots(s: seq<Inst>, p: nat, x: nat)
    requires p < |s| && x < |s| && Linked(s, p) && Linked(s, x) && s[p].executed && s[p].waiters != []
    requires WaiterOk(s, p, s[p].waiters[0]) && s[p].waiters[0].inst != p
    ensures var t := WithPop(s, p);
            Shape(t[x]) && SlotOk(t, x, 0) && SlotOk(t, x, 1) && SlotOk(t, x, 2)
  {
    var t, w := WithPop(s, p), s[p].waiters[0];
    forall j: nat | j < 3
      ensures SlotOk(t, x, j)
    {
      assert SlotOk(s, x, j);
      if t[x].used[j] && s[x].src[j] == p {
        assert Slot(x, j) != w;
      }
    }
  }

  lemma PopList(s: seq<Inst>, p: nat, x: nat)
    requires p < |s| && x < |s| && Linked(s, p) && Linked(s, x) && s[p].waiters != []
    requires WaiterOk(s, p, s[p].waiters[0]) && s[p].waiters[0].inst != p
    ensures ListOk(WithPop(s, p), x)
  {
    var t, w := WithPop(s, p), s[p].waiters[0];
    forall v | v in t[x].waiters
      ensures WaiterOk(t, x, v)
    {
      assert v in s[x].waiters && WaiterOk(s, x, v);
      assert v != w;
    }
  }

  // What becomes of an instruction whose slots have no producer left to wait for.
  function Released(d: Inst): Inst {
    if d.nDeps != 0 then d
    else if d.toBeDestroyed then d.(destroyed := true)
    else d.(issued := true, selections := d.selections + 1)
  }

  lemma ReleaseKeepsInv(s: seq<Inst>, r: nat, p: int)
    requires Inv(s, r, p) && r < |s| && !s[r].issued && !s[r].destroyed
    ensures Inv(s[r := Released(s[r])], NONE, p)
  {
    var t := s[r := Released(s[r])];
    assert Linked(s, r);
    forall x: nat | x < |t|
      ensures Linked(t, x)
    {
      assert Linked(s, x);
      forall v | v in t[x].waiters
        ensures WaiterOk(t, x, v)
      {
        assert WaiterOk(s, x, v);
      }
      forall j: nat | j < 3
        ensures SlotOk(t, x, j)
      {
        assert SlotOk(s, x, j);
      }
    }
  }

  // Instruction d, number x, once every slot linked to p, except those still in rest, is let go.
  ghost function Woken(d: Inst, x: nat, p: nat, rest: seq<Slot>): Inst
    requires Shape(d)
  {
    var used := seq(3, k requires 0 <= k < 3 => d.used[k] && (d.src[k] == p ==> Slot(x, k) in rest));
    var n := B2I(used[0]) + B2I(used[1]) + B2I(used[2]);
    var e := d.(used := used, nDeps := n);
    if n < d.nDeps then Released(e) else e
  }

  ghost predicate PartlyWoken(s: seq<Inst>, t: seq<Inst>, p: nat, rest: seq<Slot>) {
    |t| == |s| && forall x: nat | x < |s| && x != p :: Shape(s[x]) && t[x] == Woken(s[x], x, p, rest)
  }

  // Letting go of one more slot brings the window one step closer to the fully woken one.
  lemma WokenStep(s: seq<Inst>, t: seq<Inst>, p: nat)
    requires p < |t| && t[p].waiters != [] && PartlyWoken(s, t, p, t[p].waiters)
    requires WaiterOk(t, p, t[p].waiters[0]) && t[p].waiters[0].inst != p && t[p].waiters[0] !in t[p].waiters[1..]
    requires t[p].waiters[0].inst < |s| && Linked(s, t[p].waiters[0].inst)
    ensures var u, r := WithPop(t, p), t[p].waiters[0].inst;
            PartlyWoken(s, u[r := Released(u[r])], p, u[p].waiters)
  {
    hide SlotOk, ListOk, WaiterOk, Released;
    var w, rest, u := t[p].waiters[0], t[p].waiters, WithPop(t, p);
    FirstWaiter(s, t, p);
    forall x: nat | x < |s| && x != p && x != w.inst
      ensures u[x] == Woken(s[x], x, p, rest[1..])
    {
      OtherWoken(s[x], x, p, rest);
    }
    OneMoreWoken(s[w.inst], w.inst, p, rest);
  }

  // What the window before waking says of the waiter in front.
  lemma FirstWaiter(s: seq<Inst>, t: seq<Inst>, p: nat)
    requires p < |t| && t[p].waiters != [] && PartlyWoken(s, t, p, t[p].waiters)
    requires WaiterOk(t, p, t[p].waiters[0]) && t[p].waiters[0].inst != p
    requires t[p].waiters[0].inst < |s| && Linked(s, t[p].waiters[0].inst)
    ensures var w := t[p].waiters[0];
            && w.k < 3 && Shape(s[w.inst]) && Counted(s[w.inst])
            && s[w.inst].used[w.k] && s[w.inst].src[w.k] == p
  {
    hide Counted, SlotOk, ListOk, Woken;
    var w := t[p].waiters[0];
    assert t[w.inst] == Woken(s[w.inst], w.inst, p, t[p].waiters);
    WokenUses(s[w.inst], w.inst, p, t[p].waiters);
  }

  // Waking adds no used slot, changes no source and executes or flushes nothing.
  lemma WokenUses(d: Inst, x: nat, p: nat, rest: seq<Slot>)
    requires Shape(d)
    ensures Shape(Woken(d, x, p, rest)) && Woken(d, x, p, rest).src == d.src
    ensures Woken(d, x, p, rest).executed == d.executed && Woken(d, x, p, rest).toBeDestroyed == d.toBeDestroyed
    ensures forall k | 0 <= k < 3 && Woken(d, x, p, rest).used[k] :: d.used[k]
  {
  }

  lemma OtherWoken(d: Inst, x: nat, p: nat, rest: seq<Slot>)
    requires Shape(d) && rest != [] && rest[0].inst != x
    ensures Woken(d, x, p, rest) == Woken(d, x, p, rest[1..])
  {
    forall k | 0 <= k < 3
      ensures Slot(x, k) in rest <==> Slot(x, k) in rest[1..]
    {
      assert rest == [rest[0]] + rest[1..];
    }
    assert Woken(d, x, p, rest).used == Woken(d, x, p, rest[1..]).used;
  }

  lemma OneMoreWoken(d: Inst, x: nat, p: nat, rest: seq<Slot>)
    requires Shape(d) && rest != [] && rest[0].inst == x && rest[0].k < 3 && rest[0] !in rest[1..] && Counted(d)
    requires d.used[rest[0].k] && d.src[rest[0].k] == p
    ensures var e := Woken(d, x, p, rest);
            Woken(d, x, p, rest[1..]) == Released(e.(used := e.used[rest[0].k := false], nDeps := e.nDeps - 1))
  {
    var e, f, k0 := Woken(d, x, p, rest), Woken(d, x, p, rest[1..]), rest[0].k;
    assert rest == [rest[0]] + rest[1..];
    assert f.used == e.used[k0 := false];
  }

  lemma WakeKeeps(s: seq<Inst>, t: seq<Inst>, p: nat)
    requires Inv(t, NONE, p) && p < |t| && t[p].executed && t[p].waiters != []
    requires PartlyWoken(s, t, p, t[p].waiters) && forall x: nat | x < |s| :: Linked(s, x)
    ensures WaiterOk(t, p, t[p].waiters[0]) && t[p].waiters[0].inst != p
    ensures var r, u := t[p].waiters[0].inst, WithPop(t, p);
            && (u[r].nDeps == 0 ==> !u[r].issued)
            && var v := u[r := Released(u[r])];
               Inv(v, NONE, p) && PartlyWoken(s, v, p, v[p].waiters) && v[p] == t[p].(waiters := t[p].waiters[1..])
  {
    PopKeepsInv(t, p);
    assert Linked(t, p);
    WokenStep(s, t, p);
    ReleaseKeepsInv(WithPop(t, p), t[p].waiters[0].inst, p);
  }

  // A flush only marks: lists, slots and counts stay as they are.
  lemma MarkKeepsValid(s: seq<Inst>, d: nat)
    requires Valid(s) && d < |s|
    ensures Valid(s[d := s[d].(toBeDestroyed := true)])
  {
    var t := s[d := s[d].(toBeDestroyed := true)];
    forall x: nat | x < |t|
      ensures Linked(t, x)
    {
      assert Linked(s, x);
      forall w | w in t[x].waiters
        ensures WaiterOk(t, x, w)
      {
        assert WaiterOk(s, x, w);
      }
      forall j: nat | j < 3
        ensures SlotOk(t, x, j)
      {
        assert SlotOk(s, x, j);
      }
    }
  }

  // A slot is on one list only, so the lists of two producers share no node.
  lemma ListsApart(s: seq<Inst>, x: nat, y: nat)
    requires x < |s| && y < |s| && x != y && Linked(s, x) && Linked(s, y)
    ensures forall w | w in s[x].waiters :: w !in s[y].waiters
  {
    forall w | w in s[x].waiters
      ensures w !in s[y].waiters
    {
      assert WaiterOk(s, x, w);
      assert w in s[y].waiters ==> WaiterOk(s, y, w);
    }
  }

  const NEW := Inst([NONE, NONE, NONE], [false, false, false], [], 0, false, false, false, false, 0)

  // Instruction number x of the pool, its nodes its own and in nodes.
  ghost predicate Numbered(pool: seq<Dinst>, nodes: set<DinstNext>, x: nat)
    requires x < |pool|
  {
    pool[x].id == x && OwnNodes(pool[x]) && forall k: nat | k < 3 :: pool[x].pend[k] in nodes
  }

  ghost predicate IsPool(pool: seq<Dinst>, nodes: set<DinstNext>) {
    forall x: nat | x < |pool| :: Numbered(pool, nodes, x)
  }

  ghost predicate InPool(pool: seq<Dinst>, ws: seq<Slot>) {
    forall i | 0 <= i < |ws| :: ws[i].inst < |pool| && ws[i].k < 3
  }

  ghost function NodesOf(pool: seq<Dinst>, nodes: set<DinstNext>, ws: seq<Slot>): (ns: seq<DinstNext>)
    requires IsPool(pool, nodes) && InPool(pool, ws)
    ensures |ns| == |ws| && forall i | 0 <= i < |ws| :: ns[i].slot == ws[i] && ns[i] in nodes
  {
    seq(|ws|, i requires 0 <= i < |ws| => NodeOf(pool, nodes, ws[i]))
  }

  ghost function NodeOf(pool: seq<Dinst>, nodes: set<DinstNext>, w: Slot): (n: DinstNext)
    requires IsPool(pool, nodes) && w.inst < |pool| && w.k < 3
    ensures n.slot == w && n in nodes && OwnNodes(pool[w.inst]) && n == pool[w.inst].pend[w.k]
  {
    assert Numbered(pool, nodes, w.inst);
    pool[w.inst].pend[w.k]
  }

  // The list of d holds the nodes of the slots ws, in their order.
  ghost predicate ListRep(pool: seq<Dinst>, nodes: set<DinstNext>, d: Dinst, ws: seq<Slot>)
    requires IsPool(pool, nodes)
    reads d`first, d`last, nodes`nextDep
  {
    InPool(pool, ws) && IsList(d.first, d.last, NodesOf(pool, nodes, ws))
  }

  ghost predicate FieldsRep(d: Dinst, m: Inst)
    reads d`nDeps, d`issued, d`executed, d`toBeDestroyed, d`destroyed, d`selections
  {
    && d.nDeps == m.nDeps && d.issued == m.issued && d.executed == m.executed
    && d.toBeDestroyed == m.toBeDestroyed && d.destroyed == m.destroyed && d.selections == m.selections
  }

  // A node knows its instruction, whether it is used, and the producer it then waits for.
  ghost predicate SlotRep(pool: seq<Dinst>, d: Dinst, n: DinstNext, m: Inst, k: nat)
    requires k < 3
    reads n`dinst, n`isUsed, n`parent
  {
    && |m.used| == |m.src| == 3 && n.dinst == d && n.isUsed == m.used[k]
    && (m.used[k] ==> 0 <= m.src[k] < |pool| && n.parent == pool[m.src[k]])
    && (!m.used[k] ==> n.parent == null)
  }

  ghost predicate SlotsRep(pool: seq<Dinst>, nodes: set<DinstNext>, x: nat, m: Inst)
    requires x < |pool| && IsPool(pool, nodes)
    reads nodes`dinst, nodes`isUsed, nodes`parent
  {
    assert Numbered(pool, nodes, x);
    forall k: nat | k < 3 :: SlotRep(pool, pool[x], pool[x].pend[k], m, k)
  }

  lemma DistinctObjects(pool: seq<Dinst>, nodes: set<DinstNext>)
    requires IsPool(pool, nodes)
    ensures forall x: nat, y: nat | x < |pool| && y < |pool| && x != y :: pool[x] != pool[y]
  {
    forall x: nat, y: nat | x < |pool| && y < |pool| && x != y
      ensures pool[x] != pool[y]
    {
      assert Numbered(pool, nodes, x) && Numbered(pool, nodes, y);
    }
  }

  class DepWindow {
    var insts: seq<Dinst>
    // What the objects stand for, and all their nodes.
    ghost var model: seq<Inst>
    ghost var nodes: set<DinstNext>

    constructor ()
      ensures Rep() && model == [] && Valid(model) && insts == [] && nodes == {}
    {
      insts, model, nodes := [], [], {};
    }

    ghost predicate Fields(m: seq<Inst>)
      reads `insts, insts`nDeps, insts`issued, insts`executed, insts`toBeDestroyed, insts`destroyed, insts`selections
    {
      |m| == |insts| && forall x: nat | x < |insts| :: FieldsRep(insts[x], m[x])
    }

    ghost predicate SlotsAt(x: nat, m: Inst)
      requires x < |insts| && IsPool(insts, nodes)
      reads `insts, `nodes, nodes`dinst, nodes`isUsed, nodes`parent
    {
      SlotsRep(insts, nodes, x, m)
    }

    ghost predicate Slots(m: seq<Inst>)
      reads `insts, `nodes, nodes`dinst, nodes`isUsed, nodes`parent
    {
      |m| == |insts| && IsPool(insts, nodes) && forall x: nat | x < |insts| :: SlotsAt(x, m[x])
    }

    ghost predicate Lists(m: seq<Inst>)
      reads `insts, `nodes, insts`first, insts`last, nodes`nextDep
    {
      && |m| == |insts| && IsPool(insts, nodes)
      && forall x: nat | x < |insts| :: ListRep(insts, nodes, insts[x], m[x].waiters)
    }

    // The objects on the heap represent the abstract window.
    ghost predicate Rep()
      reads this, insts, nodes
    {
      |insts| == |model| && IsPool(insts, nodes) && Fields(model) && Slots(model) && Lists(model)
    }

    method CountDep(d: nat, delta: int)
      requires d < |insts| && IsPool(insts, nodes) && Fields(model)
      modifies insts`nDeps
      ensures Fields(model[d := model[d].(nDeps := model[d].nDeps + delta)])
    {
      DistinctObjects(insts, nodes);
      insts[d].nDeps := insts[d].nDeps + delta;
      forall x: nat | x < |insts|
        ensures FieldsRep(insts[x], model[d := model[d].(nDeps := model[d].nDeps + delta)][x])
      {
        assert old(FieldsRep(insts[x], model[x]));
      }
    }

    // The slot is used and knows the producer it waits for.
    method UseSlot(p: nat, d: nat, k: nat)
      requires d < |insts| && p < |insts| && k < 3 && Slots(model) && Shape(model[d])
      modifies nodes`isUsed, nodes`parent
      ensures Slots(model[d := model[d].(src := model[d].src[k := p], used := model[d].used[k := true])])
    {
      assert Numbered(insts, nodes, d);
      var n := insts[d].pend[k];
      n.isUsed := true;
      n.parent := insts[p];
      OtherSlots(d, k, n);
      ghost var m := model[d := model[d].(src := model[d].src[k := p], used := model[d].used[k := true])];
      forall x: nat | x < |insts|
        ensures SlotsAt(x, m[x])
      {
        assert old(SlotsAt(x, model[x])) && Numbered(insts, nodes, x);
      }
    }

    // The slot at the head of the list of p is given up.
    method UnuseSlot(n: DinstNext, ghost w: Slot)
      requires w.inst < |insts| && w.k < 3 && Slots(model) && Shape(model[w.inst]) && n == NodeOf(insts, nodes, w)
      modifies nodes`isUsed, nodes`parent
      ensures Slots(model[w.inst := model[w.inst].(used := model[w.inst].used[w.k := false])])
    {
      assert Numbered(insts, nodes, w.inst);
      n.isUsed := false;
      n.parent := null;
      OtherSlots(w.inst, w.k, n);
      ghost var m := model[w.inst := model[w.inst].(used := model[w.inst].used[w.k := false])];
      forall x: nat | x < |insts|
        ensures SlotsAt(x, m[x])
      {
        assert old(SlotsAt(x, model[x])) && Numbered(insts, nodes, x);
      }
    }

    lemma OtherSlots(d: nat, k: nat, n: DinstNext)
      requires IsPool(insts, nodes) && d < |insts| && k < 3 && OwnNodes(insts[d]) && n == insts[d].pend[k] &&
          insts[d].id == d
      ensures forall x: nat, j: nat | x < |insts| && j < |insts[x].pend| && (x != d || j != k) :: insts[x].pend[j] != n
    {
      forall x: nat, j: nat | x < |insts| && j < |insts[x].pend| && (x != d || j != k)
        ensures insts[x].pend[j] != n
      {
        assert Numbered(insts, nodes, x);
      }
    }

    // The node of slot w joins the end of the list of p; every other list stays as it is, because
    // no node is on two lists.
    method Append(p: nat, w: Slot)
      requires Lists(model) && p < |insts| && w.inst < |insts| && w.k < 3 && Free(p, w)
      modifies insts`first, insts`last, nodes`nextDep
      ensures Lists(model[p := model[p].(waiters := model[p].waiters + [w])])
    {
      hide NodesOf, NodeOf;
      ghost var ws := model[p].waiters;
      assert Numbered(insts, nodes, w.inst);
      var n := insts[w.inst].pend[w.k];
      DistinctObjects(insts, nodes);
      NodesPush(insts, nodes, ws, w);
      insts[p].Append(n, NodesOf(insts, nodes, ws));
      ghost var m := model[p := model[p].(waiters := ws + [w])];
      forall x: nat | x < |insts|
        ensures ListRep(insts, nodes, insts[x], m[x].waiters)
      {
        if x != p {
          assert old(ListRep(insts, nodes, insts[x], model[x].waiters));
          assert FreeAt(p, w, x);
          ghost var others := NodesOf(insts, nodes, model[x].waiters);
          assert forall i | 0 <= i < |others| :: others[i].nextDep == old(others[i].nextDep);
        }
      }
    }

    // The first node of the list of p leaves it.
    method DropHead(p: nat)
      requires Lists(model) && p < |insts| && model[p].waiters != []
      modifies insts`first
      ensures Lists(model[p := model[p].(waiters := model[p].waiters[1..])])
    {
      ghost var ws := model[p].waiters;
      DistinctObjects(insts, nodes);
      NodesTail(insts, nodes, ws);
      insts[p].DropFirst(NodesOf(insts, nodes, ws));
      ghost var m := model[p := model[p].(waiters := ws[1..])];
      forall x: nat | x < |insts|
        ensures ListRep(insts, nodes, insts[x], m[x].waiters)
      {
        assert old(ListRep(insts, nodes, insts[x], model[x].waiters));
      }
    }

    // The list of x shares no node with that of p and does not have the node of v.
    ghost predicate FreeAt(p: nat, v: Slot, x: nat)
      requires |model| == |insts| && IsPool(insts, nodes) && p < |insts| && x < |insts|
      reads `insts, `model, `nodes
    {
      && InPool(insts, model[x].waiters) && InPool(insts, model[p].waiters)
      && NodesApart(insts, nodes, model[x].waiters, model[p].waiters, v)
    }

    ghost predicate Free(p: nat, v: Slot)
      requires |model| == |insts| && IsPool(insts, nodes) && p < |insts| && v.inst < |insts| && v.k < 3
      reads `insts, `model, `nodes
    {
      && (forall x: nat | x < |insts| && x != p :: FreeAt(p, v, x))
      && InPool(insts, model[p].waiters) && NodeOf(insts, nodes, v) !in NodesOf(insts, nodes, model[p].waiters)
    }

    lemma AllApart(p: nat, v: Slot)
      requires Lists(model) && p < |insts| && v.inst < |insts| && v.k < 3 && Shape(model[v.inst]) &&
          !model[v.inst].used[v.k]
      requires forall x: nat | x < |insts| :: Linked(model, x)
      ensures Free(p, v)
    {
      Absent(model, v);
      forall x: nat | x < |insts| && x != p
        ensures FreeAt(p, v, x)
      {
        ListsApart(model, x, p);
        ApartNodes(insts, nodes, model[x].waiters, model[p].waiters, v);
      }
      var ns := NodesOf(insts, nodes, model[p].waiters);
      forall i | 0 <= i < |ns|
        ensures ns[i] != NodeOf(insts, nodes, v)
      {
        assert ns[i].slot == model[p].waiters[i];
      }
    }

    // addSrc1/2/3: slot k of d joins the list of p.
    method AddSrc(p: nat, d: nat, k: nat)
      requires Rep() && d < |insts| && p < |insts| && d != p && k < 3 && Shape(model[d]) && Free(p, Slot(d, k))
      modifies `model, insts`nDeps, insts`first, insts`last, nodes`isUsed, nodes`parent, nodes`nextDep
      ensures Rep() && model == WithLink(old(model), d, p, k)
    {
      hide Fields, Lists, Free;
      ghost var m := model;
      AddParts(p, d, k);
      Recompose(p, d, k, m);
    }

    method AddParts(p: nat, d: nat, k: nat)
      requires Rep() && d < |insts| && p < |insts| && d != p && k < 3 && Shape(model[d]) && Free(p, Slot(d, k))
      modifies insts`nDeps, insts`first, insts`last, nodes`isUsed, nodes`parent, nodes`nextDep
      ensures Fields(model[d := model[d].(nDeps := model[d].nDeps + 1)])
      ensures Slots(model[d := model[d].(src := model[d].src[k := p], used := model[d].used[k := true])])
      ensures Lists(model[p := model[p].(waiters := model[p].waiters + [Slot(d, k)])])
    {
      hide Fields, Slots, Lists, Free;
      CountDep(d, 1);
      UseSlot(p, d, k);
      Append(p, Slot(d, k));
    }

    ghost method Recompose(p: nat, d: nat, k: nat, m: seq<Inst>)
      requires |m| == |insts| && m == model && d < |m| && p < |m| && d != p && k < 3 && Shape(m[d])
      requires Fields(m[d := m[d].(nDeps := m[d].nDeps + 1)])
      requires Slots(m[d := m[d].(src := m[d].src[k := p], used := m[d].used[k := true])])
      requires Lists(m[p := m[p].(waiters := m[p].waiters + [Slot(d, k)])])
      modifies `model
      ensures Rep() && model == WithLink(m, d, p, k)
    {
      hide Fields, Slots, Lists;
      ghost var f := m[d := m[d].(nDeps := m[d].nDeps + 1)];
      ghost var u := m[d := m[d].(src := m[d].src[k := p], used := m[d].used[k := true])];
      ghost var l := m[p := m[p].(waiters := m[p].waiters + [Slot(d, k)])];
      ghost var t := WithLink(m, d, p, k);
      assert forall x: nat | x < |insts| :: SameParts(f[x], u[x], l[x], t[x]);
      Regroup(f, u, l, t);
      model := t;
    }

    // The first waiter of p is let go: its slot, its count and the list all change together.
    method GetNextPending(p: nat) returns (r: nat)
      requires Rep() && p < |insts| && model[p].waiters != []
      requires WaiterOk(model, p, model[p].waiters[0]) && model[p].waiters[0].inst != p
      modifies `model, insts`nDeps, insts`first, nodes`isUsed, nodes`parent
      ensures Rep() && r == old(model)[p].waiters[0].inst && model == WithPop(old(model), p)
    {
      hide Fields, Lists;
      ghost var m, w := model, model[p].waiters[0];
      var n := Head(p);
      r := n.dinst.id;
      TakeParts(p, r, n, w);
      RecomposePop(p, m);
    }

    // The head of the list of p is the node of its first waiter, and knows its instruction.
    method Head(p: nat) returns (n: DinstNext)
      requires Rep() && p < |insts| && model[p].waiters != []
      requires WaiterOk(model, p, model[p].waiters[0])
      ensures n == NodeOf(insts, nodes, model[p].waiters[0]) && n == insts[p].first
      ensures n.dinst != null && n.dinst.id == model[p].waiters[0].inst
    {
      ghost var w := model[p].waiters[0];
      n := insts[p].first;
      assert ListRep(insts, nodes, insts[p], model[p].waiters);
      assert NodesOf(insts, nodes, model[p].waiters)[0] == NodeOf(insts, nodes, w);
      assert SlotsAt(w.inst, model[w.inst]) && Numbered(insts, nodes, w.inst);
      assert SlotRep(insts, insts[w.inst], insts[w.inst].pend[w.k], model[w.inst], w.k);
    }

    method TakeParts(p: nat, r: nat, n: DinstNext, ghost w: Slot)
      requires Rep() && p < |insts| && model[p].waiters != [] && w == model[p].waiters[0]
      requires w.inst == r < |insts| && w.k < 3 && Shape(model[r]) && n == NodeOf(insts, nodes, w)
      modifies insts`nDeps, insts`first, nodes`isUsed, nodes`parent
      ensures Fields(model[r := model[r].(nDeps := model[r].nDeps - 1)])
      ensures Slots(model[r := model[r].(used := model[r].used[w.k := false])])
      ensures Lists(model[p := model[p].(waiters := model[p].waiters[1..])])
    {
      hide Fields, Slots, Lists;
      CountDep(r, -1);
      UnuseSlot(n, w);
      DropHead(p);
    }

    ghost method RecomposePop(p: nat, m: seq<Inst>)
      requires |m| == |insts| && m == model && p < |m| && m[p].waiters != []
      requires WaiterOk(m, p, m[p].waiters[0]) && m[p].waiters[0].inst != p
      requires var w := m[p].waiters[0]; Fields(m[w.inst := m[w.inst].(nDeps := m[w.inst].nDeps - 1)])
      requires var w := m[p].waiters[0]; Slots(m[w.inst := m[w.inst].(used := m[w.inst].used[w.k := false])])
      requires Lists(m[p := m[p].(waiters := m[p].waiters[1..])])
      modifies `model
      ensures Rep() && model == WithPop(m, p)
    {
      hide Fields, Slots, Lists;
      ghost var w := m[p].waiters[0];
      ghost var f := m[w.inst := m[w.inst].(nDeps := m[w.inst].nDeps - 1)];
      ghost var u := m[w.inst := m[w.inst].(used := m[w.inst].used[w.k := false])];
      ghost var l := m[p := m[p].(waiters := m[p].waiters[1..])];
      ghost var t := WithPop(m, p);
      assert forall x: nat | x < |insts| :: SameParts(f[x], u[x], l[x], t[x]);
      Regroup(f, u, l, t);
      model := t;
    }

    // Only counts and flags have changed.
    ghost method Restate(t: seq<Inst>)
      requires Fields(t) && Slots(model) && Lists(model) && |t| == |model| == |insts|
      requires forall x: nat | x < |t| :: SameParts(t[x], model[x], model[x], t[x])
      modifies `model
      ensures Rep() && model == t
    {
      hide Fields, Slots, Lists;
      Regroup(t, model, model, t);
      model := t;
    }

    method SetIssued(d: nat)
      requires d < |insts| && IsPool(insts, nodes) && Fields(model)
      modifies insts`issued, insts`selections
      ensures Fields(model[d := model[d].(issued := true, selections := model[d].selections + 1)])
    {
      DistinctObjects(insts, nodes);
      insts[d].issued := true;
      insts[d].selections := insts[d].selections + 1;
      ghost var t := model[d := model[d].(issued := true, selections := model[d].selections + 1)];
      forall x: nat | x < |insts|
        ensures FieldsRep(insts[x], t[x])
      {
        assert old(FieldsRep(insts[x], model[x]));
      }
    }

    method SetExecuted(d: nat)
      requires d < |insts| && IsPool(insts, nodes) && Fields(model)
      modifies insts`executed
      ensures Fields(model[d := model[d].(executed := true)])
    {
      DistinctObjects(insts, nodes);
      insts[d].executed := true;
      ghost var t := model[d := model[d].(executed := true)];
      forall x: nat | x < |insts|
        ensures FieldsRep(insts[x], t[x])
      {
        assert old(FieldsRep(insts[x], model[x]));
      }
    }

    method SetToBeDestroyed(d: nat)
      requires d < |insts| && IsPool(insts, nodes) && Fields(model)
      modifies insts`toBeDestroyed
      ensures Fields(model[d := model[d].(toBeDestroyed := true)])
    {
      DistinctObjects(insts, nodes);
      insts[d].toBeDestroyed := true;
      ghost var t := model[d := model[d].(toBeDestroyed := true)];
      forall x: nat | x < |insts|
        ensures FieldsRep(insts[x], t[x])
      {
        assert old(FieldsRep(insts[x], model[x]));
      }
    }

    method SetDestroyed(d: nat)
      requires d < |insts| && IsPool(insts, nodes) && Fields(model)
      modifies insts`destroyed
      ensures Fields(model[d := model[d].(destroyed := true)])
    {
      DistinctObjects(insts, nodes);
      insts[d].destroyed := true;
      ghost var t := model[d := model[d].(destroyed := true)];
      forall x: nat | x < |insts|
        ensures FieldsRep(insts[x], t[x])
      {
        assert old(FieldsRep(insts[x], model[x]));
      }
    }

    // Counts and flags, slots and lists are three separate parts of the heap.
    lemma Regroup(f: seq<Inst>, u: seq<Inst>, l: seq<Inst>, t: seq<Inst>)
      requires Fields(f) && Slots(u) && Lists(l) && |t| == |insts|
      requires forall x: nat | x < |insts| :: SameParts(f[x], u[x], l[x], t[x])
      ensures Fields(t) && Slots(t) && Lists(t)
    {
      forall x: nat | x < |insts|
        ensures FieldsRep(insts[x], t[x]) && SlotsAt(x, t[x]) && ListRep(insts, nodes, insts[x], t[x].waiters)
      {
        assert FieldsRep(insts[x], f[x]) && SlotsAt(x, u[x]) && ListRep(insts, nodes, insts[x], l[x].waiters);
        assert SameParts(f[x], u[x], l[x], t[x]);
        SameSlots(x, u[x], t[x]);
      }
    }

    // The slots of an object depend on src and used alone.
    lemma SameSlots(x: nat, m: Inst, t: Inst)
      requires x < |insts| && IsPool(insts, nodes) && SlotsAt(x, m) && m.src == t.src && m.used == t.used
      ensures SlotsAt(x, t)
    {
      assert Numbered(insts, nodes, x);
      forall k: nat | k < 3
        ensures SlotRep(insts, insts[x], insts[x].pend[k], t, k)
      {
        assert SlotRep(insts, insts[x], insts[x].pend[k], m, k);
      }
    }

    // preSelect: the instruction goes to the scheduler.
    method PreSelect(d: nat)
      requires Rep() && d < |insts| && model[d].nDeps == 0 && !model[d].issued
      modifies `model, insts`issued, insts`selections
      ensures Rep() &&
          model == old(model)[d := old(model)[d].(issued := true, selections := old(model)[d].selections + 1)]
    {
      hide Fields, Slots, Lists;
      SetIssued(d);
      Restate(model[d := model[d].(issued := true, selections := model[d].selections + 1)]);
    }

    // A flushed instruction that still waits is destroyed instead of selected when its turn comes.
    method Discard(d: nat)
      requires Rep() && Valid(model) && d < |insts|
      modifies `model, insts`toBeDestroyed
      ensures Rep() && Valid(model) && model == old(model)[d := old(model)[d].(toBeDestroyed := true)]
    {
      hide Fields, Slots, Lists;
      MarkKeepsValid(model, d);
      SetToBeDestroyed(d);
      Restate(model[d := model[d].(toBeDestroyed := true)]);
    }

    method Release(r: nat)
      requires Rep() && r < |insts| && (model[r].nDeps == 0 ==> !model[r].issued)
      modifies `model, insts`issued, insts`selections, insts`destroyed
      ensures Rep() && model == old(model)[r := Released(old(model)[r])]
    {
      assert FieldsRep(insts[r], model[r]);
      ReleaseIf(r, insts[r].nDeps == 0, insts[r].toBeDestroyed);
    }

    method ReleaseIf(r: nat, free: bool, drop: bool)
      requires Rep() && r < |insts| && (model[r].nDeps == 0 ==> !model[r].issued)
      requires free == (model[r].nDeps == 0) && drop == model[r].toBeDestroyed
      modifies `model, insts`issued, insts`selections, insts`destroyed
      ensures Rep() && model == old(model)[r := Released(old(model)[r])]
    {
      hide Fields, Slots, Lists;
      if drop && free {
        SetDestroyed(r);
        Restate(model[r := model[r].(destroyed := true)]);
      } else if free {
        PreSelect(r);
      }
    }

    // A new instruction enters the window, linked to nothing.
    method Enter()
      requires Rep()
      modifies this
      ensures Rep() && model == old(model) + [NEW] && |insts| == |old(insts)| + 1 && old(insts) <= insts
      ensures fresh(insts[|old(insts)|]) && forall n | n in nodes :: n in old(nodes) || fresh(n)
    {
      var d := new Dinst(|insts|);
      ghost var ns := nodes + {d.pend[0], d.pend[1], d.pend[2]};
      GrowSlots(d, ns);
      GrowLists(d, ns);
      insts, nodes := insts + [d], ns;
      model := model + [NEW];
    }

    lemma GrowSlots(d: Dinst, ns: set<DinstNext>)
      requires Rep() && d.id == |insts| && OwnNodes(d) && ns == nodes + {d.pend[0], d.pend[1], d.pend[2]}
      requires forall k | 0 <= k < 3 :: d.pend[k].dinst == d && !d.pend[k].isUsed && d.pend[k].parent == null
      ensures IsPool(insts + [d], ns)
      ensures forall x: nat | x < |insts| + 1 :: SlotsRep(insts + [d], ns, x, (model + [NEW])[x])
    {
      hide Fields, Lists;
      PoolGrows(insts, nodes, d, ns);
      var p := insts + [d];
      forall x: nat | x < |p|
        ensures SlotsRep(p, ns, x, (model + [NEW])[x])
      {
        assert Numbered(p, ns, x);
        if x < |insts| {
          assert SlotsAt(x, model[x]) && Numbered(insts, nodes, x);
          forall k: nat | k < 3
            ensures SlotRep(p, p[x], p[x].pend[k], model[x], k)
          {
            assert SlotRep(insts, insts[x], insts[x].pend[k], model[x], k);
          }
        }
      }
    }

    lemma GrowLists(d: Dinst, ns: set<DinstNext>)
      requires Rep() && IsPool(insts + [d], ns) && d.first == null
      ensures forall x: nat | x < |insts| + 1 :: ListRep(insts + [d], ns, (insts + [d])[x], (model + [NEW])[x].waiters)
    {
      hide Fields, Slots;
      var p := insts + [d];
      forall x: nat | x < |p|
        ensures ListRep(p, ns, p[x], (model + [NEW])[x].waiters)
      {
        if x < |insts| {
          assert ListRep(insts, nodes, insts[x], model[x].waiters);
          NodesGrow(insts, nodes, d, ns, model[x].waiters);
        }
      }
    }

    // A renamed instruction is linked to its unexecuted producers; without any, it is selected at once.
    method Rename(src: seq<int>) returns (d: nat)
      requires Rep() && Valid(model) && |src| == 3
      requires forall k | 0 <= k < 3 && src[k] != NONE :: 0 <= src[k] < |insts| && !model[src[k]].executed
      modifies this, insts, nodes
      ensures Rep() && Valid(model) && d == |old(model)| && |model| == d + 1
      ensures model[d].src == src && (model[d].issued <==> src == [NONE, NONE, NONE])
      ensures !model[d].executed && !model[d].toBeDestroyed
      ensures forall x | 0 <= x < d :: model[x] == old(model)[x].(waiters := model[x].waiters)
      ensures old(insts) <= insts && |insts| == d + 1 && fresh(insts[d])
      ensures forall n | n in nodes :: n in old(nodes) || fresh(n)
    {
      hide Fields, Slots, Lists;
      d := |insts|;
      Enter();
      Appended(old(model), model);
      LinkAll(d, src);
      assert Linked(model, d);
      ReleaseKeepsInv(model, d, NONE);
      Release(d);
    }

    method LinkAll(d: nat, src: seq<int>)
      requires Rep() && |src| == 3 && d + 1 == |insts| && Inv(model, d, NONE) && model[d] == NEW
      requires forall k | 0 <= k < 3 && src[k] != NONE :: 0 <= src[k] < d && !model[src[k]].executed
      modifies `model, insts, nodes
      ensures Rep() && Inv(model, d, NONE)
      ensures model[d] ==
          Inst(src, seq(3, k requires 0 <= k < 3 => src[k] != NONE), [], model[d].nDeps, false, false, false, false, 0)
      ensures forall x | 0 <= x < d :: model[x] == old(model)[x].(waiters := model[x].waiters)
    {
      hide Fields, Slots, Lists;
      for k := 0 to 3
        invariant Rep() && Inv(model, d, NONE)
        invariant model[d].(src := [], used := [], nDeps := 0) == Inst([], [], [], 0, false, false, false, false, 0)
        invariant Shape(model[d])
        invariant forall j | 0 <= j < 3 :: model[d].src[j] == if j < k then src[j] else NONE
        invariant forall j | 0 <= j < 3 :: model[d].used[j] <==> j < k && src[j] != NONE
        invariant forall x | 0 <= x < d :: model[x] == old(model)[x].(waiters := model[x].waiters)
      {
        if src[k] != NONE {
          LinkKeepsInv(model, d, src[k], k);
          AllApart(src[k], Slot(d, k));
          AddSrc(src[k], d, k);
        }
      }
    }

    // Executing p lets go every slot linked to p and nothing else; who waited only for p is selected.
    method Executed(p: nat)
      requires Rep() && Valid(model) && p < |insts| && model[p].issued && !model[p].executed
      modifies `model, insts, nodes
      ensures Rep() && Valid(model) && |model| == |old(model)|
      ensures model[p] == old(model)[p].(executed := true, waiters := [])
      ensures forall x: nat | x < |model| && x != p ::
          Shape(old(model)[x]) && model[x] == Woken(old(model)[x], x, p, [])
    {
      hide Fields, Slots, Lists;
      ExecutedKeepsInv(model, p);
      SetExecuted(p);
      Restate(model[p := model[p].(executed := true)]);
      var pending := HasPending(p);
      while pending
        invariant Rep() && Inv(model, NONE, p)
        invariant model[p] == old(model)[p].(executed := true, waiters := model[p].waiters)
        invariant PartlyWoken(old(model), model, p, model[p].waiters) && (pending <==> model[p].waiters != [])
        decreases |model[p].waiters|
      {
        WakeNext(p, old(model));
        pending := HasPending(p);
      }
    }

    method HasPending(p: nat) returns (b: bool)
      requires Rep() && p < |insts|
      ensures b <==> model[p].waiters != []
    {
      assert ListRep(insts, nodes, insts[p], model[p].waiters);
      b := insts[p].first != null;
    }

    // The next waiting instruction is destroyed, selected, or left waiting for another producer.
    method WakeNext(p: nat, ghost s: seq<Inst>)
      requires Rep() && Inv(model, NONE, p) && p < |insts| && model[p].executed && model[p].waiters != []
      requires PartlyWoken(s, model, p, model[p].waiters) && forall x: nat | x < |s| :: Linked(s, x)
      modifies `model, insts, nodes
      ensures Rep() && |model| == |s| && Inv(model, NONE, p) && PartlyWoken(s, model, p, model[p].waiters)
      ensures model[p] == old(model)[p].(waiters := old(model)[p].waiters[1..])
    {
      hide Fields, Slots, Lists;
      WakeKeeps(s, model, p);
      var r := GetNextPending(p);
      Release(r);
    }
  }

  // What happens to the window: an instruction is renamed, has executed, or is flushed.
  datatype Event = Renames(src: seq<int>) | Executes(p: nat) | Flushes(d: nat)

  // A renamed instruction waits for exactly those of its producers in the window that have not executed.
  method StillAwaited(w: DepWindow, src: seq<int>) returns (awaited: seq<int>)
    requires w.Rep() && |src| == 3
    ensures |awaited| == 3 && forall k | 0 <= k < 3 :: AwaitedAs(w.model, src[k], awaited[k])
  {
    hide DepWindow.Slots, DepWindow.Lists;
    awaited := [];
    for k := 0 to 3
      invariant |awaited| == k
      invariant forall j | 0 <= j < k :: AwaitedAs(w.model, src[j], awaited[j])
    {
      var p := NONE;
      if 0 <= src[k] < |w.insts| {
        assert FieldsRep(w.insts[src[k]], w.model[src[k]]);
        if !w.insts[src[k]].executed {
          p := src[k];
        }
      }
      awaited := awaited + [p];
    }
  }

  // Producer p is awaited as such while it is in the window and has not executed, and else not at all.
  ghost predicate AwaitedAs(s: seq<Inst>, p: int, a: int) {
    a == if 0 <= p < |s| && !s[p].executed then p else NONE
  }

  // Producer p is named and has not executed.
  ghost predicate Awaits(s: seq<Inst>, src: seq<int>, p: nat) {
    p < |s| && p in src && !s[p].executed
  }

  ghost predicate Alike(d: Inst, e: Inst) {
    d.src == e.src && d.executed == e.executed && d.toBeDestroyed == e.toBeDestroyed
  }

  // What an event does to sources and marks.  Nothing else needs saying: a valid window determines
  // who is linked and who has been selected.
  ghost predicate Happened(s: seq<Inst>, e: Event, t: seq<Inst>) {
    Valid(t) &&
    match e
    case Renames(src) =>
      && |t| == |s| + 1 && (forall x | 0 <= x < |s| :: Alike(t[x], s[x]))
      && |src| == |t[|s|].src| == 3 && !t[|s|].executed && !t[|s|].toBeDestroyed
      && (forall k | 0 <= k < 3 :: AwaitedAs(s, src[k], t[|s|].src[k]))
    case Executes(p) =>
      && |t| == |s|
      && (forall x | 0 <= x < |s| :: Alike(t[x], s[x].(executed := s[x].executed || (x == p && s[x].issued))))
    case Flushes(d) =>
      && |t| == |s|
      && (forall x | 0 <= x < |s| :: Alike(t[x], s[x].(toBeDestroyed := s[x].toBeDestroyed || x == d)))
  }

  method Happen(w: DepWindow, e: Event)
    requires w.Rep() && Valid(w.model) && (e.Renames? ==> |e.src| == 3)
    modifies w, w.insts, w.nodes
    ensures w.Rep() && Happened(old(w.model), e, w.model) && old(w.insts) <= w.insts
    ensures forall x | |old(w.insts)| <= x < |w.insts| :: fresh(w.insts[x])
    ensures forall n | n in w.nodes :: n in old(w.nodes) || fresh(n)
  {
    hide DepWindow.Slots, DepWindow.Lists, Inv;
    match e
    case Renames(src) =>
      var awaited := StillAwaited(w, src);
      var d := w.Rename(awaited);
    case Executes(p) =>
      ExecuteOne(w, p);
    case Flushes(d) =>
      if d < |w.insts| {
        w.Discard(d);
      }
  }

  method ExecuteOne(w: DepWindow, p: nat)
    requires w.Rep() && Valid(w.model)
    modifies w`model, w.insts, w.nodes
    ensures w.Rep() && Happened(old(w.model), Executes(p), w.model)
  {
    hide DepWindow.Slots, DepWindow.Lists, Inv, Woken;
    if p < |w.insts| {
      assert FieldsRep(w.insts[p], w.model[p]);
      if w.insts[p].issued && !w.insts[p].executed {
        w.Executed(p);
        forall x: nat | x < |w.model|
          ensures Alike(w.model[x], old(w.model)[x].(executed := old(w.model)[x].executed || x == p))
        {
          if x != p {
            WokenUses(old(w.model)[x], x, p, []);
          }
        }
      }
    }
  }

  // The windows between the events es.
  ghost predicate Run(ss: seq<seq<Inst>>, es: seq<Event>) {
    && |ss| == |es| + 1 && ss[0] == []
    && forall k: nat | k < |es| :: Happened(ss[k], es[k], ss[k + 1])
  }

  lemma {:induction false} StaysLinked(ss: seq<seq<Inst>>, es: seq<Event>, k: nat, m: nat, x: nat)
    requires Run(ss, es) && k <= m <= |es| && x < |ss[k]|
    ensures x < |ss[m]| && ss[m][x].src == ss[k][x].src && (ss[k][x].executed ==> ss[m][x].executed)
    ensures (exists i: nat :: k <= i < m && es[i] == Flushes(x)) || ss[k][x].toBeDestroyed <==> ss[m][x].toBeDestroyed
    decreases m
  {
    if k < m {
      StaysLinked(ss, es, k, m - 1, x);
      assert Happened(ss[m - 1], es[m - 1], ss[m - 1 + 1]);
      assert es[m - 1] == Flushes(x) ==> ss[m][x].toBeDestroyed;
    }
  }

  lemma AlwaysValid(ss: seq<seq<Inst>>, es: seq<Event>, m: nat)
    requires Run(ss, es) && m <= |es|
    ensures Valid(ss[m])
  {
    if m > 0 {
      assert Happened(ss[m - 1], es[m - 1], ss[m - 1 + 1]);
    }
  }

  // Read after write: instruction d, renamed at event k, is selected, once, exactly when each producer
  // that it named and that had not executed by then has executed, unless it is flushed meanwhile.
  lemma SelectedInTime(ss: seq<seq<Inst>>, es: seq<Event>, k: nat, m: nat)
    requires Run(ss, es) && k < m <= |es| && es[k].Renames?
    ensures var d := |ss[k]|;
            && d < |ss[m]| && ss[m][d].selections <= 1
            && (ss[m][d].selections == 1 ==> forall p: nat | Awaits(ss[k], es[k].src, p) :: Done(ss[m], p))
            && ((forall i: nat | k < i < m :: es[i] != Flushes(d)) ==>
                 (ss[m][d].selections == 1 <==> forall p: nat | Awaits(ss[k], es[k].src, p) :: Done(ss[m], p)))
  {
    var d, src := |ss[k]|, es[k].src;
    assert Happened(ss[k], es[k], ss[k + 1]);
    StaysLinked(ss, es, k + 1, m, d);
    AlwaysValid(ss, es, m);
    SelectedOnceWhenReady(ss[m], d);
    forall p: nat | Awaits(ss[k], src, p)
      ensures p < |ss[m]| && p in ss[m][d].src
    {
      var j :| 0 <= j < 3 && src[j] == p;
      assert ss[k + 1][d].src[j] == p;
      StaysLinked(ss, es, k, m, p);
    }
    forall j | 0 <= j < 3 && ss[m][d].src[j] != NONE
      ensures Awaits(ss[k], src, ss[m][d].src[j])
    {
      assert src[j] in src;
    }
  }

  ghost predicate Done(s: seq<Inst>, p: nat) {
    p < |s| && s[p].executed
  }

  // From an empty window, whatever happens is a run.
  method Simulate(es: seq<Event>) returns (w: DepWindow, ghost ss: seq<seq<Inst>>)
    requires forall i | 0 <= i < |es| && es[i].Renames? :: |es[i].src| == 3
    ensures w.Rep() && fresh(w) && Run(ss, es) && w.model == ss[|es|]
    ensures forall k: nat | k < |es| && es[k].Renames? ::
        |ss[k]| < |w.insts| && w.insts[|ss[k]|].selections <= 1 &&
        ((forall i: nat | k < i < |es| :: es[i] != Flushes(|ss[k]|)) ==>
          (w.insts[|ss[k]|].selections == 1 <==> forall p: nat | Awaits(ss[k], es[k].src, p) :: Done(w.model, p)))
  {
    hide DepWindow.Slots, DepWindow.Lists, Inv, Happened;
    w := new DepWindow();
    ss := [[]];
    for n := 0 to |es|
      invariant Run(ss, es[..n]) && fresh(w) && w.Rep() && Valid(w.model) && w.model == ss[n]
      invariant forall x | 0 <= x < |w.insts| :: fresh(w.insts[x])
      invariant forall x | x in w.nodes :: fresh(x)
    {
      Happen(w, es[n]);
      RunOn(ss, es, n, w.model);
      ss := ss + [w.model];
      AlwaysValid(ss, es[..n + 1], n + 1);
    }
    assert es[..|es|] == es;
    forall k: nat | k < |es| && es[k].Renames?
      ensures |ss[k]| < |w.insts| && w.insts[|ss[k]|].selections <= 1
      ensures (forall i: nat | k < i < |es| :: es[i] != Flushes(|ss[k]|)) ==>
          (w.insts[|ss[k]|].selections == 1 <==> forall p: nat | Awaits(ss[k], es[k].src, p) :: Done(w.model, p))
    {
      SelectedInTime(ss, es, k, |es|);
      assert FieldsRep(w.insts[|ss[k]|], w.model[|ss[k]|]);
    }
  }

  lemma RunOn(ss: seq<seq<Inst>>, es: seq<Event>, n: nat, t: seq<Inst>)
    requires n < |es| && Run(ss, es[..n]) && Happened(ss[n], es[n], t)
    ensures Run(ss + [t], es[..n + 1])
  {
    hide Happened;
    var tt, fs := ss + [t], es[..n + 1];
    forall k: nat | k < |fs|
      ensures Happened(tt[k], fs[k], tt[k + 1])
    {
      assert k < n ==> Happened(ss[k], es[..n][k], ss[k + 1]);
    }
  }

  // t has the counts and flags of f, the slots of u and the list of l.
  ghost predicate SameParts(f: Inst, u: Inst, l: Inst, t: Inst) {
    t == f.(src := u.src, used := u.used, waiters := l.waiters)
  }

  // No node of ws is one of vs or the one of slot v.
  ghost predicate NodesApart(pool: seq<Dinst>, nodes: set<DinstNext>, ws: seq<Slot>, vs: seq<Slot>, v: Slot)
    requires IsPool(pool, nodes) && InPool(pool, ws) && InPool(pool, vs)
  {
    forall i | 0 <= i < |ws| ::
      NodesOf(pool, nodes, ws)[i] !in NodesOf(pool, nodes, vs) && NodesOf(pool, nodes, ws)[i].slot != v
  }

  lemma ApartNodes(pool: seq<Dinst>, nodes: set<DinstNext>, ws: seq<Slot>, vs: seq<Slot>, v: Slot)
    requires IsPool(pool, nodes) && InPool(pool, ws) && InPool(pool, vs)
    requires v !in ws && forall w | w in ws :: w !in vs
    ensures NodesApart(pool, nodes, ws, vs, v)
  {
    var a, b := NodesOf(pool, nodes, ws), NodesOf(pool, nodes, vs);
    forall i | 0 <= i < |ws|
      ensures a[i] !in b && a[i].slot != v
    {
      assert ws[i] in ws;
      forall j | 0 <= j < |vs|
        ensures a[i] != b[j]
      {
        assert a[i].slot == ws[i] && b[j].slot == vs[j];
      }
    }
  }

  // A slot that is not used is on no list.
  lemma Absent(s: seq<Inst>, w: Slot)
    requires w.inst < |s| && w.k < 3 && Shape(s[w.inst]) && !s[w.inst].used[w.k]
    requires forall x: nat | x < |s| :: Linked(s, x)
    ensures forall x: nat | x < |s| :: w !in s[x].waiters
  {
    forall x: nat | x < |s|
      ensures w !in s[x].waiters
    {
      assert Linked(s, x);
      assert w in s[x].waiters ==> WaiterOk(s, x, w);
    }
  }

  lemma NodesPush(pool: seq<Dinst>, nodes: set<DinstNext>, ws: seq<Slot>, w: Slot)
    requires IsPool(pool, nodes) && InPool(pool, ws) && w.inst < |pool| && w.k < 3
    ensures InPool(pool, ws + [w])
    ensures NodesOf(pool, nodes, ws + [w]) == NodesOf(pool, nodes, ws) + [NodeOf(pool, nodes, w)]
  {
  }

  lemma NodesTail(pool: seq<Dinst>, nodes: set<DinstNext>, ws: seq<Slot>)
    requires IsPool(pool, nodes) && InPool(pool, ws) && ws != []
    ensures InPool(pool, ws[1..]) && NodesOf(pool, nodes, ws[1..]) == NodesOf(pool, nodes, ws)[1..]
  {
  }

  lemma PoolGrows(pool: seq<Dinst>, nodes: set<DinstNext>, d: Dinst, ns: set<DinstNext>)
    requires IsPool(pool, nodes) && d.id == |pool| && OwnNodes(d) && ns == nodes + {d.pend[0], d.pend[1], d.pend[2]}
    ensures IsPool(pool + [d], ns)
  {
    var p' := pool + [d];
    forall x: nat | x < |p'|
      ensures Numbered(p', ns, x)
    {
      assert x < |pool| ==> Numbered(pool, nodes, x);
    }
  }

  lemma NodesGrow(pool: seq<Dinst>, nodes: set<DinstNext>, d: Dinst, ns: set<DinstNext>, ws: seq<Slot>)
    requires IsPool(pool, nodes) && IsPool(pool + [d], ns) && InPool(pool, ws)
    ensures InPool(pool + [d], ws) && NodesOf(pool + [d], ns, ws) == NodesOf(pool, nodes, ws)
  {
  }
}
