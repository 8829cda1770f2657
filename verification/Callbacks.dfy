/**
 Callbacks and the order in which waiting callbacks are kept: by priority, and
 first come first served among equals.
 */
module Callbacks {
  // One scheduling of an event.  A callback can sit in one timed queue (tqNext) and in one
  // container (ccNext).
  class Callback {
    const priority: nat
    const time: nat
    var tqNext: Callback?
    var ccNext: Callback?

    constructor (priority: nat, time: nat)
      ensures this.priority == priority && this.time == time && tqNext == null && ccNext == null
    {
      this.priority, this.time := priority, time;
      tqNext, ccNext := null, null;
    }
  }

  ghost predicate Sorted(s: seq<Callback>) {
    forall i, j | 0 <= i < j < |s| :: s[i].priority <= s[j].priority
  }

  ghost predicate Distinct(s: seq<Callback>) {
    forall i, j | 0 <= i < j < |s| :: s[i] != s[j]
  }

  // The first position whose callback is less urgent than p.
  ghost function Rank(s: seq<Callback>, p: nat): (r: nat)
    ensures r <= |s|
    ensures forall i | 0 <= i < r :: s[i].priority <= p
    ensures r < |s| ==> p < s[r].priority
  {
    if s == [] || p < s[0].priority then 0 else 1 + Rank(s[1..], p)
  }

  ghost function Enqueue(s: seq<Callback>, c: Callback): seq<Callback> {
    var r := Rank(s, c.priority);
    s[..r] + [c] + s[r..]
  }

  // The newcomer goes behind its equals and before everything less urgent; nobody else moves.
  lemma EnqueueKeepsOrder(s: seq<Callback>, c: Callback)
    requires Sorted(s) && Distinct(s) && c !in s
    ensures Sorted(Enqueue(s, c)) && Distinct(Enqueue(s, c))
    ensures forall x :: x in Enqueue(s, c) <==> x in s || x == c
  {
    var r := Rank(s, c.priority);
    assert s == s[..r] + s[r..];
  }

  // The length of the prefix that the insertion loops scan is the rank.
  lemma RankUnique(s: seq<Callback>, p: nat, r: nat)
    requires Sorted(s) && r <= |s|
    requires forall i | 0 <= i < r :: s[i].priority <= p
    requires r < |s| ==> p < s[r].priority
    ensures r == Rank(s, p)
  {
  }
}
