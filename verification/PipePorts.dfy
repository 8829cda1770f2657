/**
 Ports that book the next free cycle at once: one unit, or several.
 */
module PipePorts {
  function Count(grants: seq<nat>, t: nat): nat {
    if grants == [] then 0 else Count(grants[..|grants| - 1], t) + if grants[|grants| - 1] == t then 1 else 0
  }

  // r is the first cycle from now on that has not been booked n times.
  ghost predicate IsEarliest(grants: seq<nat>, now: nat, n: nat, r: nat) {
    now <= r && Count(grants, r) < n && forall t: nat | now <= t < r :: Full(grants, t, n)
  }

  // Every answer of a port was the earliest possible when it was given.
  ghost predicate Explained(grants: seq<nat>, clocks: seq<nat>, n: nat) {
    |grants| == |clocks| && forall i: nat | i < |grants| :: ExplainedAt(grants, clocks, n, i)
  }

  ghost predicate ExplainedAt(grants: seq<nat>, clocks: seq<nat>, n: nat, i: nat)
    requires i < |grants| == |clocks|
  {
    IsEarliest(grants[..i], clocks[i], n, grants[i])
  }

  // Cycle t has been booked at least n times.
  ghost predicate Full(grants: seq<nat>, t: nat, n: nat) {
    Count(grants, t) >= n
  }

  // The answers are determined by the calls, so any two ports with n units agree.
  lemma {:induction false} SameAnswers(g: seq<nat>, h: seq<nat>, clocks: seq<nat>, n: nat)
    requires Explained(g, clocks, n) && Explained(h, clocks, n)
    ensures g == h
  {
    var m := |clocks| - 1;
    if m >= 0 {
      ShorterExplained(g, clocks, n);
      ShorterExplained(h, clocks, n);
      SameAnswers(g[..m], h[..m], clocks[..m], n);
      assert ExplainedAt(g, clocks, n, m) && ExplainedAt(h, clocks, n, m);
      EarliestIsUnique(g[..m], clocks[m], n, g[m], h[m]);
      assert g == g[..m] + [g[m]] && h == h[..m] + [h[m]];
    }
  }

  lemma EarliestIsUnique(grants: seq<nat>, now: nat, n: nat, r: nat, s: nat)
    requires IsEarliest(grants, now, n, r) && IsEarliest(grants, now, n, s)
    ensures r == s
  {
    assert r < s ==> Full(grants, r, n);
    assert s < r ==> Full(grants, s, n);
  }

  lemma ShorterExplained(g: seq<nat>, clocks: seq<nat>, n: nat)
    requires Explained(g, clocks, n) && clocks != []
    ensures Explained(g[..|g| - 1], clocks[..|g| - 1], n)
  {
    var v, c := g[..|g| - 1], clocks[..|g| - 1];
    forall i: nat | i < |v|
      ensures ExplainedAt(v, c, n, i)
    {
      assert ExplainedAt(g, clocks, n, i);
      assert v[..i] == g[..i];
    }
  }

  lemma MoreExplained(g: seq<nat>, clocks: seq<nat>, n: nat, r: nat, now: nat)
    requires Explained(g, clocks, n) && IsEarliest(g, now, n, r)
    ensures Explained(g + [r], clocks + [now], n)
  {
    var v, c := g + [r], clocks + [now];
    forall i: nat | i < |v|
      ensures ExplainedAt(v, c, n, i)
    {
      if i < |g| {
        assert ExplainedAt(g, clocks, n, i);
        assert v[..i] == g[..i];
      } else {
        assert v[..i] == g;
      }
    }
  }

  lemma CountPush(grants: seq<nat>, r: nat, t: nat)
    ensures Count(grants + [r], t) == Count(grants, t) + if r == t then 1 else 0
  {
    assert (grants + [r])[..|grants|] == grants;
  }

  // No cycle is ever booked more than n times.
  lemma {:induction false} NeverOverbooked(g: seq<nat>, clocks: seq<nat>, n: nat, t: nat)
    requires Explained(g, clocks, n)
    ensures Count(g, t) <= n
  {
    var m := |g| - 1;
    if m >= 0 {
      ShorterExplained(g, clocks, n);
      NeverOverbooked(g[..m], clocks[..m], n, t);
      assert ExplainedAt(g, clocks, n, m);
      assert g == g[..m] + [g[m]];
      CountPush(g[..m], g[m], t);
    }
  }

  lemma {:induction false} NothingLater(g: seq<nat>, last: nat, t: nat)
    requires last < t && forall i | 0 <= i < |g| :: g[i] <= last
    ensures Count(g, t) == 0
  {
    if g != [] {
      NothingLater(g[..|g| - 1], last, t);
    }
  }

  class PortFullyPipe {
    var lTime: nat
    ghost var grants: seq<nat>
    ghost var clocks: seq<nat>
    ghost var now: nat

    // lTime is the next free cycle; everything from the last call up to it is booked.
    ghost predicate Valid()
      reads this
    {
      && Explained(grants, clocks, 1)
      && (forall i | 0 <= i < |grants| :: grants[i] < lTime)
      && forall t: nat | now <= t < lTime :: Full(grants, t, 1)
    }

    constructor (clock: nat)
      ensures Valid() && now == clock && grants == clocks == []
    {
      lTime, now, grants, clocks := clock, clock, [], [];
    }

    method NextSlot(clock: nat) returns (r: nat)
      requires Valid() && now <= clock
      modifies this
      ensures Valid() && now == clock && grants == old(grants) + [r] && clocks == old(clocks) + [clock]
      ensures IsEarliest(old(grants), clock, 1, r)
    {
      ghost var g := grants;
      if lTime < clock {
        lTime := clock;
      }
      Free(g);
      r := lTime;
      lTime := lTime + 1;
      MoreExplained(g, clocks, 1, r, clock);
      grants, clocks, now := g + [r], clocks + [clock], clock;
      forall t: nat | now <= t < lTime
        ensures Full(grants, t, 1)
      {
        assert t < r ==> Full(g, t, 1);
        CountPush(g, r, t);
      }
    }

    lemma Free(g: seq<nat>)
      requires forall i | 0 <= i < |g| :: g[i] < lTime
      ensures Count(g, lTime) == 0
    {
      if lTime > 0 {
        NothingLater(g, lTime - 1, lTime);
      }
    }
  }

  class PortFullyNPipe {
    const nUnitsMinusOne: nat
    var freeUnits: nat
    var lTime: nat
    ghost var grants: seq<nat>
    ghost var clocks: seq<nat>
    ghost var now: nat

    ghost function Units(): nat {
      nUnitsMinusOne + 1
    }

    // lTime is the cycle being filled: freeUnits are left in it, all before it is full.
    ghost predicate Valid()
      reads this
    {
      && freeUnits <= nUnitsMinusOne + 1
      && Explained(grants, clocks, Units())
      && (forall i | 0 <= i < |grants| :: grants[i] <= lTime)
      && Count(grants, lTime) + freeUnits == nUnitsMinusOne + 1
      && forall t: nat | now <= t < lTime :: Full(grants, t, Units())
    }

    constructor (n: nat, clock: nat)
      requires 0 < n
      ensures Valid() && nUnitsMinusOne == n - 1 && now == clock && grants == clocks == []
    {
      nUnitsMinusOne, freeUnits, lTime, now, grants, clocks := n - 1, n, clock, clock, [], [];
    }

    method NextSlot(clock: nat) returns (r: nat)
      requires Valid() && now <= clock
      modifies this
      ensures Valid() && now == clock && grants == old(grants) + [r] && clocks == old(clocks) + [clock]
      ensures IsEarliest(old(grants), clock, Units(), r)
    {
      ghost var g, last := grants, lTime;
      if lTime < clock {
        lTime := clock;
        freeUnits := nUnitsMinusOne;
        NothingLater(g, last, lTime);
      } else if freeUnits > 0 {
        freeUnits := freeUnits - 1;
      } else {
        assert Full(g, lTime, Units());
        lTime := lTime + 1;
        freeUnits := nUnitsMinusOne;
        NothingLater(g, last, lTime);
      }
      r := lTime;
      MoreExplained(g, clocks, Units(), r, clock);
      grants, clocks, now := g + [r], clocks + [clock], clock;
      CountPush(g, r, r);
      forall t: nat | now <= t < lTime
        ensures Full(grants, t, Units())
      {
        assert Full(g, t, Units());
        CountPush(g, r, t);
      }
    }
  }

  // The one-unit port and the n-unit port with n = 1 give the same answers to the same calls.
  method Compare(clocks: seq<nat>, start: nat) returns (a: seq<nat>, b: seq<nat>)
    requires forall i | 0 <= i < |clocks| :: start <= clocks[i]
    requires forall i, j | 0 <= i < j < |clocks| :: clocks[i] <= clocks[j]
    ensures a == b && |a| == |clocks|
    ensures Explained(a, clocks, 1)
  {
    var one := new PortFullyPipe(start);
    var many := new PortFullyNPipe(1, start);
    a, b := [], [];
    for i := 0 to |clocks|
      invariant one.Valid() && many.Valid() && many.nUnitsMinusOne == 0
      invariant one.now == many.now == if i == 0 then start else clocks[i - 1]
      invariant one.grants == a && many.grants == b
      invariant one.clocks == many.clocks == clocks[..i]
    {
      var r := one.NextSlot(clocks[i]);
      var s := many.NextSlot(clocks[i]);
      a, b := a + [r], b + [s];
    }
    assert clocks[..|clocks|] == clocks;
    SameAnswers(a, b, clocks, 1);
  }
}
