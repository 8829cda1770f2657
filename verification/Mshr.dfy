/**
 Miss status holding registers: requests for the same slot are served one at a time, the
 others wait in a container of callbacks and are woken one per retirement.
 */
module Mshr {
  import opened Bits
  import opened CacheGeometry
  import opened Callbacks
  import opened MshrSlots

  // A waiting list in priority order, first come first served among equals.
  class CallbackContainer {
    var first: Callback?
    var last: Callback?
    ghost var list: seq<Callback>

    constructor ()
      ensures Valid() && list == []
    {
      first, last, list := null, null, [];
    }

    ghost predicate Valid()
      reads this, list`ccNext
    {
      && Sorted(list) && Distinct(list)
      && (list == [] ==> first == null && last == null)
      && (list != [] ==> first == list[0] && last == list[|list| - 1] && list[|list| - 1].ccNext == null)
      && forall i | 0 <= i < |list| - 1 :: list[i].ccNext == list[i + 1]
    }

    predicate Empty()
      reads `first
    {
      first == null
    }

    method Add(c: Callback)
      requires Valid() && c !in list && c.ccNext == null
      modifies this, list`ccNext, c`ccNext
      ensures Valid() && list == Enqueue(old(list), c)
    {
      c.ccNext := null;
      Link(c);
    }

    method Link(c: Callback)
      requires Valid() && c !in list && c.ccNext == null
      modifies this, list`ccNext, c`ccNext
      ensures Valid() && list == Enqueue(old(list), c)
    {
      ghost var s := list;
      if last == null {
        AddFirst(c);
      } else if last.priority <= c.priority {
        RankUnique(s, c.priority, |s|);
        assert Enqueue(s, c) == s + [c];
        Append(c);
      } else {
        var prev, cur := FindPlace(c.priority);
        InsertAt(c, prev, cur, Rank(s, c.priority));
      }
    }

    method AddFirst(c: Callback)
      requires list == [] && c.ccNext == null
      modifies this
      ensures Valid() && list == [c]
    {
      first := c;
      last := c;
      list := [c];
    }

    method Append(c: Callback)
      requires Valid() && c !in list && c.ccNext == null && list != [] && last.priority <= c.priority
      modifies `last, `list, list`ccNext
      ensures Valid() && list == old(list) + [c]
    {
      last.ccNext := c;
      last := c;
      list := list + [c];
    }

    method FindPlace(p: nat) returns (prev: Callback?, cur: Callback?)
      requires Valid() && list != [] && p < last.priority
      ensures var r := Rank(list, p);
              r < |list| && cur == list[r] && prev == if r == 0 then null else list[r - 1]
    {
      prev := null;
      cur := first;
      ghost var i := 0;
      while cur != null && cur.priority <= p
        invariant 0 <= i < |list| && cur == list[i] && prev == if i == 0 then null else list[i - 1]
        invariant forall j | 0 <= j < i :: list[j].priority <= p
        decreases |list| - i
      {
        prev := cur;
        cur := cur.ccNext;
        i := i + 1;
      }
      RankUnique(list, p, i);
    }

    method InsertAt(c: Callback, prev: Callback?, cur: Callback?, ghost r: nat)
      requires Valid() && c !in list && r < |list| && r == Rank(list, c.priority)
      requires cur == list[r] && prev == if r == 0 then null else list[r - 1]
      modifies `first, `list, list`ccNext, c`ccNext
      ensures Valid() && list == Enqueue(old(list), c)
    {
      hide Enqueue, Rank, Sorted;
      ghost var s := list;
      EnqueueKeepsOrder(s, c);
      PlacesAfter(s, c);
      if prev == null {
        c.ccNext := first;
        first := c;
      } else {
        assert prev in s;
        prev.ccNext := c;
        c.ccNext := cur;
      }
      list := Enqueue(s, c);
      forall i | 0 <= i < |list| - 1
        ensures list[i].ccNext == list[i + 1]
      {
        if i != r && i + 1 != r {
          var j := if i < r then i else i - 1;
          assert s[j].ccNext == s[j + 1];
          assert r == 0 || s[j] != s[r - 1];
        }
      }
    }

    static lemma PlacesAfter(s: seq<Callback>, c: Callback)
      ensures var r, t := Rank(s, c.priority), Enqueue(s, c);
              && |t| == |s| + 1 && t[r] == c
              && (forall i | 0 <= i < r :: t[i] == s[i])
              && forall i | r < i <= |s| :: t[i] == s[i - 1]
    {
    }

    // Takes the first callback off the list and returns it, for its owner to run.
    method CallNext() returns (cb: Callback?)
      requires Valid()
      modifies this, list`ccNext
      ensures Valid()
      ensures old(list) == [] ==> cb == null && list == []
      ensures old(list) != [] ==> cb == old(list)[0] && list == old(list)[1..] && cb.ccNext == null
    {
      if first == null {
        return null;
      }
      cb := first;
      assert 1 < |list| ==> list[0].ccNext == list[0 + 1];
      first := first.ccNext;
      cb.ccNext := null;
      if first == null {
        last := null;
      }
      list := list[1..];
    }
  }

  class Entry {
    const cc: CallbackContainer
    var nUse: int

    constructor ()
      ensures fresh(cc) && cc.Valid() && cc.list == [] && nUse == 0
    {
      cc := new CallbackContainer();
      nUse := 0;
    }
  }

  method NewEntries(n: nat) returns (s: seq<Entry>)
    ensures |s| == n && forall p, q | 0 <= p < q < n :: s[p] != s[q] && s[p].cc != s[q].cc
    ensures forall p | 0 <= p < n :: fresh(s[p]) && fresh(s[p].cc) && s[p].nUse == 0
    ensures forall p | 0 <= p < n :: s[p].cc.list == [] && s[p].cc.Valid()
  {
    s := [];
    while |s| < n
      invariant |s| <= n && forall p, q | 0 <= p < q < |s| :: s[p] != s[q] && s[p].cc != s[q].cc
      invariant forall p | 0 <= p < |s| :: fresh(s[p]) && fresh(s[p].cc) && s[p].nUse == 0
      invariant forall p | 0 <= p < |s| :: s[p].cc.list == [] && s[p].cc.Valid()
    {
      var e := new Entry();
      s := s + [e];
    }
  }

  lemma {:induction false} SumOfZeros(uses: seq<int>)
    requires forall i | 0 <= i < |uses| :: uses[i] == 0
    ensures Sum(uses) == 0
  {
    if uses != [] {
      SumOfZeros(uses[..|uses| - 1]);
    }
  }

  ghost function Sum(uses: seq<int>): int {
    if uses == [] then 0 else Sum(uses[..|uses| - 1]) + uses[|uses| - 1]
  }

  lemma {:induction false} SumSet(uses: seq<int>, i: nat, v: int)
    requires i < |uses|
    ensures Sum(uses[i := v]) == Sum(uses) - uses[i] + v
  {
    var n := |uses| - 1;
    if i < n {
      SumSet(uses[..n], i, v);
      assert uses[i := v][..n] == uses[..n][i := v];
    } else {
      assert uses[i := v][..n] == uses[..n];
    }
  }

  // Four slots for every entry, to keep unrelated lines apart.
  method MshrSize(size: nat) returns (n: nat)
    requires 0 < size < 1024 * 32 * 32
    ensures IsPow2(n) && n == 4 * RoundUp(size) && 4 * size <= n < 8 * size
  {
    n := RoundUpPower2(size);
    RoundUpIsLeast(size);
    n := n * 4;
    assert IsPow2(n / 2);
  }

  class MSHR {
    const log2LineSize: nat
    const nEntries: int
    const mask: nat
    const entry: seq<Entry>
    var nFreeEntries: int
    ghost var uses: seq<int>
    ghost var waiting: seq<seq<Callback>>
    ghost var nodes: set<Callback>

    constructor (size: nat, lineSize: nat)
      requires 0 < size < 1024 * 32 * 32 && 0 < lineSize < 0x8000
      ensures Valid() && nFreeEntries == nEntries == size && nodes == {}
      ensures forall p | 0 <= p < |entry| :: fresh(entry[p]) && fresh(entry[p].cc)
      ensures uses == seq(|entry|, _ => 0) && waiting == seq(|entry|, _ => [])
      ensures Pow2(log2LineSize) == RoundUp(lineSize) && |entry| == 4 * RoundUp(size)
    {
      var ls := Log2i(lineSize);
      var n := MshrSize(size);
      var e := NewEntries(n);
      log2LineSize, nEntries, mask, entry := ls, size, n - 1, e;
      nFreeEntries := size;
      uses, waiting, nodes := seq(n, _ => 0), seq(n, _ => []), {};
      new;
      StartsEmpty();
    }

    lemma StartsEmpty()
      requires Shape() && uses == seq(|entry|, _ => 0) && waiting == seq(|entry|, _ => [])
      requires forall p: nat | p < |entry| :: entry[p].nUse == 0 && entry[p].cc.list == [] && entry[p].cc.Valid()
      requires 0 <= nFreeEntries == nEntries
      ensures Valid()
    {
      SumOfZeros(uses);
      forall p: nat | p < |entry|
        ensures ListAt(p)
      {
      }
      forall p: nat, q: nat | p < |entry| && q < |entry| && p != q
        ensures Disjoint(p, q)
      {
      }
    }

    ghost predicate Shape() {
      && |entry| == mask + 1 && IsPow2(mask + 1)
      && forall p, q | 0 <= p < q < |entry| :: entry[p] != entry[q] && entry[p].cc != entry[q].cc
    }

    ghost predicate ListAt(p: nat)
      requires p < |entry| == |waiting|
      reads `waiting, `nodes, entry[p].cc, nodes`ccNext
    {
      && (forall c | c in waiting[p] :: c in nodes)
      && entry[p].cc.list == waiting[p] && entry[p].cc.Valid()
    }

    // The counters in the entries, and what is left of the registers.
    ghost predicate Counted()
      reads `uses, `nFreeEntries, entry`nUse
    {
      && Shape() && |uses| == |entry| && 0 <= nFreeEntries == nEntries - Sum(uses)
      && forall p: nat | p < |entry| :: entry[p].nUse == uses[p]
    }

    // A slot in use has one holder; everybody else who wants it waits in its list.
    static ghost predicate Held(uses: seq<int>, waiting: seq<seq<Callback>>) {
      |uses| == |waiting| && forall p: nat | p < |uses| :: OneHolder(SlotState(uses[p], waiting[p]))
    }

    ghost predicate Lists()
      reads `waiting, `nodes, Containers(), nodes`ccNext
    {
      && Shape() && |entry| == |waiting|
      && (forall p: nat | p < |entry| :: ListAt(p))
      && forall p: nat, q: nat | p < |entry| && q < |entry| && p != q :: Disjoint(p, q)
    }

    ghost function SlotOf(p: nat): SlotState
      requires p < |waiting| && |waiting| == |uses|
      reads `uses, `waiting
    {
      SlotState(uses[p], waiting[p])
    }

    ghost predicate Disjoint(p: nat, q: nat)
      requires p < |waiting| && q < |waiting|
      reads `waiting
    {
      forall c | c in waiting[p] :: c !in waiting[q]
    }

    ghost function Containers(): set<CallbackContainer> {
      set e | e in entry :: e.cc
    }

    ghost predicate Valid()
      reads this, entry, Containers(), nodes`ccNext
    {
      Shape() && |entry| == |uses| == |waiting| && Lists() && Counted() && Held(uses, waiting)
    }

    function CalcEntry(addr: nat): (pos: nat)
      requires IsPow2(mask + 1)
      ensures pos < mask + 1
    {
      var p := Shr(addr, log2LineSize);
      AndBelow(Xor(p, Shr(p, 11)), mask + 1);
      And(Xor(p, Shr(p, 11)), mask)
    }

    // Two addresses of one line.
    ghost predicate SameLine(a: nat, b: nat) { a / Pow2(log2LineSize) == b / Pow2(log2LineSize) }

    // All addresses of a line have the same entry.  Its bits are those of the line number, each
    // flipped by the one eleven places above.
    lemma EntryOfLine(a: nat, b: nat)
      requires IsPow2(mask + 1)
      ensures SameLine(a, b) ==> CalcEntry(a) == CalcEntry(b)
    {
      ShrIsDiv(a, log2LineSize);
      ShrIsDiv(b, log2LineSize);
    }

    lemma EntryBits(a: nat, w: nat)
      requires mask + 1 == Pow2(w) && IsPow2(mask + 1)
      ensures forall j: nat :: EntryBit(CalcEntry(a), a / Pow2(log2LineSize), w, j)
    {
      ShrIsDiv(a, log2LineSize);
      var line := a / Pow2(log2LineSize);
      forall j: nat
        ensures EntryBit(CalcEntry(a), line, w, j)
      {
        SpreadBit(line, w, j);
      }
    }

    static ghost predicate EntryBit(e: nat, line: nat, w: nat, j: nat) {
      Bit(e, j) <==> j < w && (Bit(line, j) != Bit(line, j + 11))
    }

    static lemma SpreadBit(p: nat, w: nat, j: nat)
      ensures EntryBit(And(Xor(p, Shr(p, 11)), Pow2(w) - 1), p, w, j)
    {
      hide Bit, And, Xor, Shr;
      BitAnd(Xor(p, Shr(p, 11)), Pow2(w) - 1, j);
      MaskBit(w, j);
      BitXor(p, Shr(p, 11), j);
      BitShr(p, 11, j);
    }

    predicate CanIssue(addr: nat)
      requires Shape()
      reads entry
    {
      entry[CalcEntry(addr)].nUse == 0
    }

    // A slot that can be issued has nobody waiting, so nobody is overtaken.
    lemma IssueOvertakesNobody(addr: nat)
      requires Valid()
      ensures CanIssue(addr) ==> waiting[CalcEntry(addr)] == [] && uses[CalcEntry(addr)] == 0
      ensures !CanIssue(addr) ==> uses[CalcEntry(addr)] == 1 + |waiting[CalcEntry(addr)]|
    {
      assert OneHolder(SlotOf(CalcEntry(addr)));
    }

    // One user of a slot more, or one less.
    method AddUses(pos: nat, d: int)
      requires Counted() && Lists() && pos < |entry| == |uses| && (d <= 0 || d <= nFreeEntries)
      modifies `nFreeEntries, `uses, entry[pos]
      ensures Counted() && Lists() && |uses| == |entry| && nFreeEntries == old(nFreeEntries) - d
      ensures uses == old(uses)[pos := old(uses)[pos] + d]
    {
      SumSet(uses, pos, uses[pos] + d);
      nFreeEntries := nFreeEntries - d;
      entry[pos].nUse := entry[pos].nUse + d;
      uses := uses[pos := uses[pos] + d];
    }

    method BlockEntry(addr: nat)
      requires Valid() && nFreeEntries > 0 && CanIssue(addr)
      modifies `nFreeEntries, `uses, entry[CalcEntry(addr)]
      ensures Valid() && uses == old(uses)[CalcEntry(addr) := 1] && nFreeEntries == old(nFreeEntries) - 1
      ensures Step(old(SlotOf(CalcEntry(addr))), Block, SlotOf(CalcEntry(addr)))
      ensures forall b | SameLine(addr, b) :: !CanIssue(b)
    {
      hide CalcEntry, SameLine;
      IssueOvertakesNobody(addr);
      AddUses(CalcEntry(addr), 1);
      StillHeld(old(uses), waiting, CalcEntry(addr), SlotState(1, []));
      assert waiting == waiting[CalcEntry(addr) := []];
      forall b | SameLine(addr, b)
        ensures !CanIssue(b)
      {
        EntryOfLine(addr, b);
      }
    }

    // Slots that nobody touched are held as before.
    static lemma StillHeld(uses: seq<int>, waiting: seq<seq<Callback>>, pos: nat, s: SlotState)
      requires Held(uses, waiting) && pos < |uses| && OneHolder(s)
      ensures Held(uses[pos := s.use], waiting[pos := s.waiting])
    {
    }

    method EnqueueAt(pos: nat, c: Callback)
      requires Lists() && pos < |entry| && c !in nodes && c.ccNext == null
      modifies `waiting, `nodes, nodes`ccNext, c`ccNext, entry[pos].cc
      ensures Lists() && nodes == old(nodes) + {c} && c !in old(waiting)[pos]
      ensures waiting == old(waiting)[pos := Enqueue(old(waiting)[pos], c)]
    {
      hide Enqueue, Rank, Sorted, Distinct;
      assert ListAt(pos);
      ghost var s := waiting[pos];
      EnqueueAddsOne(s, c);
      forall p: nat | p < |entry| && p != pos
        ensures ListAt(p) && forall x | x in waiting[p] :: x !in s && x != c
      {
        assert Disjoint(p, pos);
      }
      entry[pos].cc.Add(c);
      waiting := waiting[pos := Enqueue(s, c)];
      nodes := nodes + {c};
      forall p: nat | p < |entry|
        ensures ListAt(p)
      {
        if p != pos {
          assert old(ListAt(p));
          assert forall x | x in waiting[p] :: x.ccNext == old(x.ccNext);
        }
      }
      forall p: nat, q: nat | p < |entry| && q < |entry| && p != q
        ensures Disjoint(p, q)
      {
        assert old(Disjoint(p, q));
      }
    }

    method DequeueAt(pos: nat) returns (cb: Callback)
      requires Lists() && pos < |entry| && waiting[pos] != []
      modifies `waiting, `nodes, nodes`ccNext, entry[pos].cc
      ensures Lists() && cb == old(waiting)[pos][0] && nodes == old(nodes) - {cb} && cb.ccNext == null
      ensures waiting == old(waiting)[pos := old(waiting)[pos][1..]]
    {
      assert ListAt(pos);
      ghost var s := waiting[pos];
      forall p: nat | p < |entry| && p != pos
        ensures ListAt(p) && forall x | x in waiting[p] :: x !in s
      {
        assert Disjoint(p, pos);
      }
      var first := entry[pos].cc.CallNext();
      cb := first;
      waiting := waiting[pos := s[1..]];
      nodes := nodes - {cb};
      forall p: nat | p < |entry|
        ensures ListAt(p)
      {
        if p != pos {
          assert old(ListAt(p));
          assert forall x | x in waiting[p] :: x.ccNext == old(x.ccNext);
        }
      }
      forall p: nat, q: nat | p < |entry| && q < |entry| && p != q
        ensures Disjoint(p, q)
      {
        assert old(Disjoint(p, q));
      }
    }

    method AddEntry(addr: nat, c: Callback)
      requires Valid() && nFreeEntries > 0 && !CanIssue(addr) && c !in nodes && c.ccNext == null
      modifies `nFreeEntries, `uses, `waiting, `nodes, nodes`ccNext, c`ccNext
      modifies entry[CalcEntry(addr)], entry[CalcEntry(addr)].cc
      ensures Valid() && nodes == old(nodes) + {c} && nFreeEntries == old(nFreeEntries) - 1
      ensures uses == old(uses)[CalcEntry(addr) := old(uses)[CalcEntry(addr)] + 1]
      ensures waiting == old(waiting)[CalcEntry(addr) := Enqueue(old(waiting)[CalcEntry(addr)], c)]
      ensures Step(old(SlotOf(CalcEntry(addr))), Join(c), SlotOf(CalcEntry(addr)))
    {
      hide Lists, Counted, Held, CalcEntry, Enqueue;
      var pos := CalcEntry(addr);
      IssueOvertakesNobody(addr);
      AddUses(pos, 1);
      EnqueueAt(pos, c);
      EnqueueAddsOne(old(waiting)[pos], c);
      StillHeld(old(uses), old(waiting), pos, SlotState(uses[pos], waiting[pos]));
    }

    static lemma EnqueueAddsOne(s: seq<Callback>, c: Callback)
      ensures |Enqueue(s, c)| == |s| + 1
      ensures forall x | x in Enqueue(s, c) :: x in s || x == c
    {
      var r := Rank(s, c.priority);
      assert s == s[..r] + s[r..];
    }

    // The holder leaves.  If anybody waits, the first in line gets the slot and is called.
    method Retire(addr: nat) returns (r: bool, cb: Callback?)
      requires Valid() && !CanIssue(addr)
      modifies `nFreeEntries, `uses, `waiting, `nodes, nodes`ccNext
      modifies entry[CalcEntry(addr)], entry[CalcEntry(addr)].cc
      ensures Valid() && nFreeEntries == old(nFreeEntries) + 1
      ensures uses == old(uses)[CalcEntry(addr) := old(uses)[CalcEntry(addr)] - 1]
      ensures r <==> old(waiting)[CalcEntry(addr)] != []
      ensures r ==> cb == old(waiting)[CalcEntry(addr)][0] && nodes == old(nodes) - {cb} && cb.ccNext == null
      ensures r ==> waiting == old(waiting)[CalcEntry(addr) := old(waiting)[CalcEntry(addr)][1..]]
      ensures !r ==> cb == null && CanIssue(addr) && nodes == old(nodes) && waiting == old(waiting)
      ensures Step(old(SlotOf(CalcEntry(addr))), Leave, SlotOf(CalcEntry(addr)))
      ensures r <==> Calls(old(SlotOf(CalcEntry(addr))), Leave)
    {
      hide Lists, Counted, Held, CalcEntry;
      var pos := CalcEntry(addr);
      IssueOvertakesNobody(addr);
      AddUses(pos, -1);
      r, cb := false, null;
      if !EmptyAt(pos) {
        cb := DequeueAt(pos);
        r := true;
      }
      StillHeld(old(uses), old(waiting), pos, SlotState(uses[pos], waiting[pos]));
      assert waiting == old(waiting)[pos := waiting[pos]];
      IssueOvertakesNobody(addr);
    }

    predicate EmptyAt(pos: nat)
      requires Lists() && pos < |entry|
      reads `waiting, `nodes, Containers(), nodes`ccNext
      ensures EmptyAt(pos) <==> waiting[pos] == []
    {
      assert ListAt(pos);
      entry[pos].cc.Empty()
    }

    // If holders keep retiring, everybody who waits is called once, in line order.
    method DrainSlot(addr: nat) returns (woken: seq<Callback>)
      requires Valid()
      modifies `nFreeEntries, `uses, `waiting, `nodes, nodes`ccNext
      modifies entry[CalcEntry(addr)], entry[CalcEntry(addr)].cc
      ensures Valid() && CanIssue(addr) && woken == old(waiting)[CalcEntry(addr)]
      ensures nFreeEntries == old(nFreeEntries) + old(uses)[CalcEntry(addr)]
    {
      hide Lists, Counted, Held, CalcEntry;
      ghost var pos := CalcEntry(addr);
      woken := [];
      IssueOvertakesNobody(addr);
      while !CanIssue(addr)
        invariant Valid() && nodes <= old(nodes)
        invariant woken + waiting[pos] == old(waiting)[pos]
        invariant nFreeEntries + uses[pos] == old(nFreeEntries) + old(uses)[pos]
        decreases |waiting[pos]|, if CanIssue(addr) then 0 else 1
      {
        IssueOvertakesNobody(addr);
        var r, cb := Retire(addr);
        IssueOvertakesNobody(addr);
        if r {
          woken := woken + [cb];
        }
      }
      IssueOvertakesNobody(addr);
    }

    // A request takes the slot of its line or joins the queue there; a holder that is done leaves.
    method ServeOne(r: Request) returns (woken: seq<Callback>, ghost action: SlotAction)
      requires Valid() && nFreeEntries > 0 && (r.Ask? ==> r.c !in nodes && r.c.ccNext == null)
      modifies `nFreeEntries, `uses, `waiting, `nodes, nodes`ccNext, Asking([r])`ccNext
      modifies entry[CalcEntry(r.addr)], entry[CalcEntry(r.addr)].cc
      ensures Valid() && nFreeEntries >= old(nFreeEntries) - 1 && nodes <= old(nodes) + Asking([r])
      ensures Step(old(SlotOf(CalcEntry(r.addr))), action, SlotOf(CalcEntry(r.addr)))
      ensures woken == Callee(old(SlotOf(CalcEntry(r.addr))), action)
      ensures action == ActionOn(old(SlotOf(CalcEntry(r.addr))), r)
      ensures forall q: nat | q < |entry| && q != CalcEntry(r.addr) :: SlotOf(q) == old(SlotOf(q))
    {
      hide Lists, Counted, Held, CalcEntry;
      IssueOvertakesNobody(r.addr);
      woken, action := [], Pause;
      if r.Ask? {
        assert r.c in Asking([r]) by {
          assert [r][0] == r;
        }
        if CanIssue(r.addr) {
          BlockEntry(r.addr);
          action := Block;
        } else {
          AddEntry(r.addr, r.c);
          action := Join(r.c);
        }
      } else if !CanIssue(r.addr) {
        var called, cb := Retire(r.addr);
        action := Leave;
        if called {
          woken := [cb];
        }
      }
    }

    // What the slot of addr sees of the k-th request.
    ghost predicate Sees(addr: nat, s: SlotState, r: Request, a: SlotAction)
      requires IsPow2(mask + 1)
    {
      && a == (if CalcEntry(r.addr) == CalcEntry(addr) then ActionOn(s, r) else Pause)
      && (SameLine(r.addr, addr) ==> a == ActionOn(s, r))
    }

    // Any sequence of requests and departures, of any lines, is a run of each slot, here that of addr.
    // All requests of the line of addr go there.
    method Serve(addr: nat, rs: seq<Request>)
        returns (woken: seq<Callback>, ghost states: seq<SlotState>, ghost actions: seq<SlotAction>)
      requires Valid() && CanIssue(addr) && |rs| <= nFreeEntries
      requires forall i, j | 0 <= i < j < |rs| && rs[i].Ask? && rs[j].Ask? :: rs[i].c != rs[j].c
      requires forall i | 0 <= i < |rs| && rs[i].Ask? :: rs[i].c !in nodes && rs[i].c.ccNext == null
      modifies `nFreeEntries, `uses, `waiting, `nodes, nodes`ccNext, Asking(rs)`ccNext, entry, Containers()
      ensures Valid() && Run(states, actions) && states[|actions|] == SlotOf(CalcEntry(addr))
      ensures |actions| == |rs| && forall k | 0 <= k < |rs| :: Sees(addr, states[k], rs[k], actions[k])
      ensures forall k | 0 <= k < |rs| && SameLine(rs[k].addr, addr) :: actions[k] == ActionOn(states[k], rs[k])
      ensures woken == Called(states, actions, |actions|) && Distinct(woken)
      ensures CanIssue(addr) ==> multiset(woken) == multiset(Joined(actions, |actions|))
    {
      hide Lists, Counted, Held, CalcEntry, Served, Asking, ActionOn;
      IssueOvertakesNobody(addr);
      woken, states, actions := [], [SlotOf(CalcEntry(addr))], [];
      NothingServed(addr, rs, SlotOf(CalcEntry(addr)));
      for i := 0 to |rs|
        invariant Valid() && |rs| - i <= nFreeEntries && |actions| == i == |states| - 1
        invariant Served(addr, rs, i, woken, states, actions) && states[i] == SlotOf(CalcEntry(addr))
        invariant nodes <= old(nodes) + Asking(rs[..i])
        invariant forall j | i <= j < |rs| && rs[j].Ask? :: rs[j].c !in nodes && rs[j].c.ccNext == null
      {
        AskingMore(rs, i);
        var w, a := ServeFor(addr, rs[i]);
        ServedMore(addr, rs, i, woken, states, actions, w, a, SlotOf(CalcEntry(addr)));
        woken, states, actions := woken + w, states + [SlotOf(CalcEntry(addr))], actions + [a];
      }
      IssueOvertakesNobody(addr);
      AllServed(addr, rs, woken, states, actions);
    }

    // The first i requests, as the slot of addr has seen them.
    ghost predicate Served(addr: nat, rs: seq<Request>, i: nat, woken: seq<Callback>, states: seq<SlotState>,
        actions: seq<SlotAction>)
      requires IsPow2(mask + 1) && i <= |rs|
    {
      && Run(states, actions) && |actions| == i && woken == Called(states, actions, i)
      && (forall k | 0 <= k < i :: Sees(addr, states[k], rs[k], actions[k]))
      && AskedOnce(Joined(actions, i), rs[..i])
    }

    lemma NothingServed(addr: nat, rs: seq<Request>, s: SlotState)
      requires IsPow2(mask + 1) && s == SlotState(0, [])
      ensures Served(addr, rs, 0, [], [s], [])
    {
    }

    lemma ServedMore(addr: nat, rs: seq<Request>, i: nat, woken: seq<Callback>, states: seq<SlotState>,
        actions: seq<SlotAction>, w: seq<Callback>, a: SlotAction, t: SlotState)
      requires IsPow2(mask + 1) && i < |rs| && Served(addr, rs, i, woken, states, actions)
      requires Step(states[i], a, t) && w == Callee(states[i], a) && Sees(addr, states[i], rs[i], a)
      requires forall k, j | 0 <= k < j < |rs| && rs[k].Ask? && rs[j].Ask? :: rs[k].c != rs[j].c
      ensures Served(addr, rs, i + 1, woken + w, states + [t], actions + [a])
    {
      hide Step, Callee, Joiner, CalcEntry;
      RunOn(states, actions, a, t);
      AsksOnceMore(Joined(actions, i), rs, i, a);
    }

    lemma AllServed(addr: nat, rs: seq<Request>, woken: seq<Callback>, states: seq<SlotState>, actions: seq<SlotAction>)
      requires IsPow2(mask + 1) && Served(addr, rs, |rs|, woken, states, actions)
      ensures Run(states, actions) && |actions| == |rs|
      ensures forall k | 0 <= k < |rs| :: Sees(addr, states[k], rs[k], actions[k])
      ensures forall k | 0 <= k < |rs| && SameLine(rs[k].addr, addr) :: actions[k] == ActionOn(states[k], rs[k])
      ensures woken == Called(states, actions, |actions|) && Distinct(woken)
      ensures states[|rs|].use == 0 ==> multiset(woken) == multiset(Joined(actions, |actions|))
    {
      FreeSlotHasCalledAll(states, actions, |actions|);
      forall k | 0 <= k < |rs| && SameLine(rs[k].addr, addr)
        ensures actions[k] == ActionOn(states[k], rs[k])
      {
        assert Sees(addr, states[k], rs[k], actions[k]);
      }
    }

    // One request, as the slot of addr sees it.
    method ServeFor(addr: nat, r: Request) returns (woken: seq<Callback>, ghost action: SlotAction)
      requires Valid() && nFreeEntries > 0 && (r.Ask? ==> r.c !in nodes && r.c.ccNext == null)
      modifies `nFreeEntries, `uses, `waiting, `nodes, nodes`ccNext, Asking([r])`ccNext, entry, Containers()
      ensures Valid() && nFreeEntries >= old(nFreeEntries) - 1 && nodes <= old(nodes) + Asking([r])
      ensures Step(old(SlotOf(CalcEntry(addr))), action, SlotOf(CalcEntry(addr)))
      ensures woken == Callee(old(SlotOf(CalcEntry(addr))), action)
      ensures Sees(addr, old(SlotOf(CalcEntry(addr))), r, action)
    {
      hide Lists, Counted, Held, CalcEntry;
      EntryOfLine(r.addr, addr);
      var w, a := ServeOne(r);
      if CalcEntry(r.addr) == CalcEntry(addr) {
        woken, action := w, a;
      } else {
        woken, action := [], Pause;
      }
    }
  }

  // From empty registers: requests for one line are never served together, nobody is called twice,
  // and nobody who joined is left behind.
  method Simulate(size: nat, lineSize: nat, addr: nat, rs: seq<Request>)
      returns (m: MSHR, woken: seq<Callback>, ghost states: seq<SlotState>, ghost actions: seq<SlotAction>)
    requires 0 < size < 1024 * 32 * 32 && 0 < lineSize < 0x8000 && |rs| <= size
    requires forall i, j | 0 <= i < j < |rs| && rs[i].Ask? && rs[j].Ask? :: rs[i].c != rs[j].c
    requires forall i | 0 <= i < |rs| && rs[i].Ask? :: rs[i].c.ccNext == null
    modifies Asking(rs)`ccNext
    ensures m.Valid() && Run(states, actions) && states[|actions|] == m.SlotOf(m.CalcEntry(addr))
    ensures |actions| == |rs| && forall k | 0 <= k < |rs| &&
        rs[k].addr / RoundUp(lineSize) == addr / RoundUp(lineSize) ::
        actions[k] == ActionOn(states[k], rs[k])
    ensures woken == Called(states, actions, |actions|) && Distinct(woken)
    ensures m.CanIssue(addr) ==> multiset(woken) == multiset(Joined(actions, |actions|))
  {
    hide RoundUp;
    m := new MSHR(size, lineSize);
    m.IssueOvertakesNobody(addr);
    woken, states, actions := m.Serve(addr, rs);
    forall k | 0 <= k < |rs| && rs[k].addr / RoundUp(lineSize) == addr / RoundUp(lineSize)
      ensures actions[k] == ActionOn(states[k], rs[k])
    {
      assert m.SameLine(rs[k].addr, addr);
    }
  }

  datatype Request = Ask(addr: nat, c: Callback) | Done(addr: nat)

  // What a request means for the slot of its line: only a free slot is taken at once.
  ghost function ActionOn(s: SlotState, r: Request): SlotAction {
    match r
    case Ask(_, c) => if s.use == 0 then Block else Join(c)
    case Done(_) => if s.use == 0 then Pause else Leave
  }

  // Each of these joined once, by one of these requests.
  ghost predicate AskedOnce(joined: seq<Callback>, rs: seq<Request>) {
    Distinct(joined) && forall c | c in joined :: c in Asking(rs)
  }

  lemma AsksOnceMore(joined: seq<Callback>, rs: seq<Request>, i: nat, a: SlotAction)
    requires i < |rs| && AskedOnce(joined, rs[..i]) && (a.Join? ==> rs[i].Ask? && rs[i].c == a.c)
    requires forall j | 0 <= j < i && rs[j].Ask? && rs[i].Ask? :: rs[j].c != rs[i].c
    ensures AskedOnce(joined + Joiner(a), rs[..i + 1])
  {
    assert Asking(rs[..i]) <= Asking(rs[..i + 1]) by {
      forall c | c in Asking(rs[..i])
        ensures c in Asking(rs[..i + 1])
      {
        var j :| 0 <= j < i && rs[..i][j].Ask? && rs[..i][j].c == c;
        assert rs[..i + 1][j] == rs[j];
      }
    }
    if a.Join? {
      assert rs[..i + 1][i] == rs[i];
      assert a.c !in joined;
    }
  }

  lemma AskingMore(rs: seq<Request>, i: nat)
    requires i < |rs|
    ensures Asking(rs[..i + 1]) == Asking(rs[..i]) + Asking([rs[i]])
    ensures Asking(rs[..i]) <= Asking(rs) && Asking([rs[i]]) <= Asking(rs)
    ensures forall j | i < j < |rs| && rs[j].Ask? && (forall k | 0 <= k < j && rs[k].Ask? :: rs[k].c != rs[j].c) ::
        rs[j].c !in Asking([rs[i]])
  {
    var upto, one := rs[..i + 1], [rs[i]];
    forall c | c in Asking(upto)
      ensures c in Asking(rs[..i]) || c in Asking(one)
    {
      var j :| 0 <= j <= i && upto[j].Ask? && upto[j].c == c;
      assert j < i ==> rs[..i][j] == upto[j];
      assert j == i ==> one[0] == upto[j];
    }
    forall c | c in Asking(rs[..i])
      ensures c in Asking(upto) && c in Asking(rs)
    {
      var j :| 0 <= j < i && rs[..i][j].Ask? && rs[..i][j].c == c;
      assert upto[j] == rs[..i][j] == rs[j];
    }
    forall c | c in Asking(one)
      ensures c in Asking(upto) && c in Asking(rs)
    {
      assert upto[i] == rs[i] == one[0];
    }
  }

  ghost function Asking(rs: seq<Request>): set<Callback> {
    set i | 0 <= i < |rs| && rs[i].Ask? :: rs[i].c
  }
}
