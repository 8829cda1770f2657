/**
 One slot of the miss registers over any interleaving of the requests that take it, join its
 line and leave it.
 */
module MshrSlots {
  import opened Callbacks

  // use counts the holder and everybody waiting.
  datatype SlotState = SlotState(use: int, waiting: seq<Callback>)

  // Pause: something that does not concern the slot.
  datatype SlotAction = Block | Join(c: Callback) | Leave | Pause

  ghost predicate OneHolder(s: SlotState) {
    (s.use == 0 && s.waiting == []) || s.use == 1 + |s.waiting|
  }

  // A leaving holder hands the slot to the first in line, which is called.
  ghost predicate Step(s: SlotState, a: SlotAction, t: SlotState) {
    match a
    case Block => s.use == 0 && t == s.(use := 1)
    case Join(c) => s.use > 0 && c !in s.waiting && t == SlotState(s.use + 1, Enqueue(s.waiting, c))
    case Pause => t == s
    case Leave => s.use > 0 && t == SlotState(s.use - 1, if s.waiting == [] then [] else s.waiting[1..])
  }

  ghost predicate Run(states: seq<SlotState>, actions: seq<SlotAction>) {
    && |states| == |actions| + 1 && states[0] == SlotState(0, [])
    && forall k: nat | k < |actions| :: Step(states[k], actions[k], states[k + 1])
  }

  // Who joined the line in the first k steps, and who was called.
  ghost function Joined(actions: seq<SlotAction>, k: nat): seq<Callback>
    requires k <= |actions|
  {
    if k == 0 then [] else
      Joined(actions, k - 1) + Joiner(actions[k - 1])
  }

  ghost function Joiner(a: SlotAction): seq<Callback> {
    if a.Join? then [a.c] else []
  }

  ghost function Called(states: seq<SlotState>, actions: seq<SlotAction>, k: nat): seq<Callback>
    requires k <= |actions| && |states| == |actions| + 1
  {
    if k == 0 then [] else
      Called(states, actions, k - 1) + Callee(states[k - 1], actions[k - 1])
  }

  ghost function Callee(s: SlotState, a: SlotAction): seq<Callback> {
    if Calls(s, a) then [s.waiting[0]] else []
  }

  ghost predicate Calls(s: SlotState, a: SlotAction) {
    a == Leave && s.waiting != []
  }

  ghost predicate InOrder(s: SlotState) {
    OneHolder(s) && Sorted(s.waiting) && Distinct(s.waiting)
  }

  lemma {:induction false} AlwaysInOrder(states: seq<SlotState>, actions: seq<SlotAction>, k: nat)
    requires Run(states, actions) && k < |states|
    ensures InOrder(states[k])
  {
    if k > 0 {
      AlwaysInOrder(states, actions, k - 1);
      assert Step(states[k - 1], actions[k - 1], states[k - 1 + 1]);
      StepKeepsOrder(states[k - 1], actions[k - 1], states[k]);
    }
  }

  lemma StepKeepsOrder(s: SlotState, a: SlotAction, t: SlotState)
    requires InOrder(s) && Step(s, a, t)
    ensures InOrder(t)
  {
    if a.Join? {
      EnqueueKeepsOrder(s.waiting, a.c);
    }
  }

  lemma RunOn(states: seq<SlotState>, actions: seq<SlotAction>, a: SlotAction, t: SlotState)
    requires Run(states, actions) && Step(states[|actions|], a, t)
    ensures Run(states + [t], actions + [a])
    ensures Called(states + [t], actions + [a], |actions| + 1) ==
            Called(states, actions, |actions|) + Callee(states[|actions|], a)
    ensures Joined(actions + [a], |actions| + 1) == Joined(actions, |actions|) + Joiner(a)
  {
    var ss, aa := states + [t], actions + [a];
    forall k: nat | k < |aa|
      ensures Step(ss[k], aa[k], ss[k + 1])
    {
      assert k < |actions| ==> Step(states[k], actions[k], states[k + 1]);
    }
    CalledBefore(states, actions, t, a, |actions|);
    JoinedBefore(actions, a, |actions|);
  }

  lemma {:induction false} CalledBefore(states: seq<SlotState>, actions: seq<SlotAction>, t: SlotState,
      a: SlotAction, k: nat)
    requires |states| == |actions| + 1 && k <= |actions|
    ensures Called(states + [t], actions + [a], k) == Called(states, actions, k)
  {
    if k > 0 {
      CalledBefore(states, actions, t, a, k - 1);
    }
  }

  lemma {:induction false} JoinedBefore(actions: seq<SlotAction>, a: SlotAction, k: nat)
    requires k <= |actions|
    ensures Joined(actions + [a], k) == Joined(actions, k)
  {
    if k > 0 {
      JoinedBefore(actions, a, k - 1);
    }
  }

  // Whoever joined has been called once, or is still waiting.
  lemma {:induction false} NobodyIsLost(states: seq<SlotState>, actions: seq<SlotAction>, k: nat)
    requires Run(states, actions) && k <= |actions|
    ensures multiset(Joined(actions, k)) == multiset(Called(states, actions, k)) + multiset(states[k].waiting)
  {
    hide Step, Callee, Joiner;
    if k > 0 {
      NobodyIsLost(states, actions, k - 1);
      assert Step(states[k - 1], actions[k - 1], states[k - 1 + 1]);
      StepBalances(Joined(actions, k - 1), Called(states, actions, k - 1), states[k - 1], actions[k - 1], states[k]);
    }
  }

  lemma StepBalances(j: seq<Callback>, ca: seq<Callback>, s: SlotState, a: SlotAction, t: SlotState)
    requires multiset(j) == multiset(ca) + multiset(s.waiting) && Step(s, a, t)
    ensures multiset(j + Joiner(a)) == multiset(ca + Callee(s, a)) + multiset(t.waiting)
  {
    hide Enqueue, Rank;
    if a.Join? {
      JoinBalances(j, ca, s.waiting, a.c);
      assert ca + Callee(s, a) == ca;
    } else {
      assert j + Joiner(a) == j;
      if Calls(s, a) {
        CallBalances(j, ca, s.waiting);
      } else {
        assert ca + Callee(s, a) == ca;
      }
    }
  }

  lemma JoinBalances(j: seq<Callback>, ca: seq<Callback>, w: seq<Callback>, c: Callback)
    requires multiset(j) == multiset(ca) + multiset(w)
    ensures multiset(j + [c]) == multiset(ca) + multiset(Enqueue(w, c))
  {
    EnqueueAdds(w, c);
    assert multiset(j + [c]) == multiset(j) + multiset{c};
  }

  lemma CallBalances(j: seq<Callback>, ca: seq<Callback>, w: seq<Callback>)
    requires multiset(j) == multiset(ca) + multiset(w) && w != []
    ensures multiset(j) == multiset(ca + [w[0]]) + multiset(w[1..])
  {
    assert w == [w[0]] + w[1..];
    assert multiset(ca + [w[0]]) == multiset(ca) + multiset{w[0]};
  }

  lemma EnqueueAdds(s: seq<Callback>, c: Callback)
    ensures multiset(Enqueue(s, c)) == multiset(s) + multiset{c}
  {
    var r := Rank(s, c.priority);
    assert s == s[..r] + s[r..];
  }

  // When the slot is free again, those called are just those who joined; and as long as nobody
  // joins twice, nobody is ever called twice.
  lemma FreeSlotHasCalledAll(states: seq<SlotState>, actions: seq<SlotAction>, k: nat)
    requires Run(states, actions) && k <= |actions|
    ensures states[k].use == 0 ==> multiset(Called(states, actions, k)) == multiset(Joined(actions, k))
    ensures Distinct(Joined(actions, k)) ==> Distinct(Called(states, actions, k))
  {
    AlwaysInOrder(states, actions, k);
    NobodyIsLost(states, actions, k);
    var j, ca, w := Joined(actions, k), Called(states, actions, k), states[k].waiting;
    if Distinct(j) {
      PartOfDistinct(j, ca, w);
    }
  }

  lemma PartOfDistinct(j: seq<Callback>, ca: seq<Callback>, w: seq<Callback>)
    requires multiset(j) == multiset(ca) + multiset(w) && Distinct(j)
    ensures Distinct(ca)
  {
    DistinctCounts(j);
    forall c
      ensures multiset(ca)[c] <= 1
    {
      assert multiset(j)[c] == multiset(ca)[c] + multiset(w)[c];
    }
    CountsDistinct(ca);
  }

  lemma {:induction false} DistinctCounts(s: seq<Callback>)
    requires Distinct(s)
    ensures forall c :: multiset(s)[c] <= 1
  {
    if s != [] {
      var n := |s| - 1;
      DistinctCounts(s[..n]);
      assert s == s[..n] + [s[n]];
      assert s[n] !in s[..n] && s[n] !in multiset(s[..n]);
    }
  }

  lemma {:induction false} CountsDistinct(s: seq<Callback>)
    requires forall c :: multiset(s)[c] <= 1
    ensures Distinct(s)
  {
    if s != [] {
      var n := |s| - 1;
      assert s == s[..n] + [s[n]];
      assert forall c :: multiset(s[..n])[c] <= multiset(s)[c];
      CountsDistinct(s[..n]);
      assert s[n] !in multiset(s[..n]);
      forall i | 0 <= i < n
        ensures s[i] != s[n]
      {
        assert s[..n][i] in multiset(s[..n]);
      }
    }
  }

  // A waiter moves back only when somebody strictly more urgent joins the line.
  lemma OvertakenByUrgentOnly(s: seq<Callback>, c: Callback, i: nat)
    requires Sorted(s) && i < |s|
    ensures |Enqueue(s, c)| == |s| + 1
    ensures Enqueue(s, c)[if c.priority < s[i].priority then i + 1 else i] == s[i]
  {
    var r := Rank(s, c.priority);
    if r <= i && r < |s| {
      assert s[r].priority <= s[i].priority;
    }
  }

  ghost function Leaves(actions: seq<SlotAction>, i: nat, j: nat): nat
    requires i <= j <= |actions|
    decreases j - i
  {
    if i == j then 0 else (if actions[i] == Leave then 1 else 0) + Leaves(actions, i + 1, j)
  }

  ghost function UrgentJoins(actions: seq<SlotAction>, i: nat, j: nat, p: nat): nat
    requires i <= j <= |actions|
    decreases j - i
  {
    if i == j then 0 else
      (if actions[i].Join? && actions[i].c.priority < p then 1 else 0) + UrgentJoins(actions, i + 1, j, p)
  }

  // A waiter at position pos is called within pos + 1 retirements, and one more for everybody
  // strictly more urgent who joins meanwhile.
  lemma {:induction false} CalledInTurn(states: seq<SlotState>, actions: seq<SlotAction>, i: nat, j: nat, pos: nat)
    requires Run(states, actions) && i <= j <= |actions| && pos < |states[i].waiting|
    requires pos + UrgentJoins(actions, i, j, states[i].waiting[pos].priority) < Leaves(actions, i, j)
    ensures exists k: nat ::
        i <= k < j && Calls(states[k], actions[k]) && states[k].waiting[0] == states[i].waiting[pos]
    decreases j - i
  {
    var s, a, t := states[i], actions[i], states[i + 1];
    assert Step(s, a, t);
    AlwaysInOrder(states, actions, i);
    if a.Join? {
      OvertakenByUrgentOnly(s.waiting, a.c, pos);
      CalledInTurn(states, actions, i + 1, j, if a.c.priority < s.waiting[pos].priority then pos + 1 else pos);
    } else if a == Leave && pos == 0 {
      assert Calls(states[i], actions[i]);
    } else {
      CalledInTurn(states, actions, i + 1, j, if a == Leave then pos - 1 else pos);
    }
  }
}
