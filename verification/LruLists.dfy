/**
 Least recently used, as a property of the whole access history.
 */
module LruLists {
  // The first place of t, or the length when it is absent.
  function Index(w: seq<nat>, t: nat): (i: nat)
    ensures i <= |w| && (i < |w| <==> t in w)
    ensures i < |w| ==> w[i] == t
    ensures forall j | 0 <= j < i :: w[j] != t
  {
    if w == [] || w[0] == t then 0 else 1 + Index(w[1..], t)
  }

  function MoveToFront<T>(w: seq<T>, k: nat): (r: seq<T>)
    requires k < |w|
    ensures |r| == |w|
  {
    [w[k]] + w[..k] + w[k + 1..]
  }

  // What one access does to the tags of a set, the first way being the most recent.
  function Touch(w: seq<nat>, t: nat): (r: seq<nat>)
    requires w != []
    ensures |r| == |w|
  {
    if t in w then MoveToFront(w, Index(w, t)) else [t] + w[..|w| - 1]
  }

  ghost predicate Unique(w: seq<nat>) {
    forall i, j | 0 <= i < j < |w| && w[i] == w[j] :: w[i] == 0
  }

  function Without(r: seq<nat>, t: nat): seq<nat> {
    if t in r then r[..Index(r, t)] + r[Index(r, t) + 1..] else r
  }

  // Every tag of a trace once, the most recently used first.
  function Recency(trace: seq<nat>): seq<nat> {
    if trace == [] then [] else
      var t := trace[|trace| - 1];
      [t] + Without(Recency(trace[..|trace| - 1]), t)
  }

  // The last time t is used in the trace, or -1.
  function LastUse(trace: seq<nat>, t: nat): (k: int)
    ensures -1 <= k < |trace|
  {
    if trace == [] then -1
    else if trace[|trace| - 1] == t then |trace| - 1
    else LastUse(trace[..|trace| - 1], t)
  }

  ghost predicate Before(trace: seq<nat>, r: seq<nat>, i: nat, j: nat)
    requires i < j < |r|
  {
    LastUse(trace, r[i]) > LastUse(trace, r[j])
  }

  ghost predicate ByRecency(trace: seq<nat>, r: seq<nat>) {
    forall i: nat, j: nat | i < j < |r| :: Before(trace, r, i, j)
  }

  // Recency lists exactly the tags of the trace, each once, latest use first.
  lemma {:induction false} RecencyIsByLastUse(trace: seq<nat>)
    ensures ByRecency(trace, Recency(trace))
    ensures forall t: nat :: t in Recency(trace) <==> t in trace
  {
    if trace != [] {
      var before, t := trace[..|trace| - 1], trace[|trace| - 1];
      RecencyIsByLastUse(before);
      assert trace == before + [t];
      var prior := Recency(before);
      var r := [t] + Without(prior, t);
      WithoutMembers(before, prior, t);
      var rest := Without(prior, t);
      forall i: nat, j: nat | i < j < |r|
        ensures Before(trace, r, i, j)
      {
        assert r[j] == rest[j - 1] && rest[j - 1] in rest;
        if i > 0 {
          assert r[i] == rest[i - 1] && rest[i - 1] in rest;
          assert Before(before, rest, i - 1, j - 1);
        }
      }
    }
  }

  // Without closes the gap that t leaves.
  lemma WithoutAt(r: seq<nat>, t: nat)
    ensures t !in r ==> Without(r, t) == r
    ensures t in r ==> |Without(r, t)| == |r| - 1
    ensures t in r ==> forall i | 0 <= i < |r| - 1 :: Without(r, t)[i] == if i < Index(r, t) then r[i] else r[i + 1]
  {
  }

  lemma WithoutFrom(r: seq<nat>, t: nat, i: nat) returns (x: nat)
    requires t in r && i < |Without(r, t)|
    ensures x == (if i < Index(r, t) then i else i + 1) < |r| && Without(r, t)[i] == r[x]
  {
    x := if i < Index(r, t) then i else i + 1;
  }

  lemma WithoutMembers(trace: seq<nat>, r: seq<nat>, t: nat)
    requires ByRecency(trace, r)
    ensures ByRecency(trace, Without(r, t)) && t !in Without(r, t)
    ensures forall u: nat :: u in Without(r, t) <==> u in r && u != t
  {
    if t in r {
      UniqueByRecency(trace, r);
      WithoutOrdered(trace, r, t);
      WithoutGone(r, t);
      forall u: nat
        ensures u in Without(r, t) <==> u in r && u != t
      {
        WithoutKeeps(r, t, u);
      }
    }
  }

  lemma WithoutOrdered(trace: seq<nat>, r: seq<nat>, t: nat)
    requires ByRecency(trace, r) && t in r
    ensures ByRecency(trace, Without(r, t))
  {
    var v := Without(r, t);
    forall i: nat, j: nat | i < j < |v|
      ensures Before(trace, v, i, j)
    {
      var x := WithoutFrom(r, t, i);
      var y := WithoutFrom(r, t, j);
      assert Before(trace, r, x, y);
    }
  }

  lemma WithoutGone(r: seq<nat>, t: nat)
    requires t in r && forall i, j | 0 <= i < j < |r| :: r[i] != r[j]
    ensures t !in Without(r, t)
  {
    var k, v := Index(r, t), Without(r, t);
    forall i | 0 <= i < |v|
      ensures v[i] != t
    {
      assert v[i] == r[if i < k then i else i + 1];
    }
  }

  lemma WithoutKeeps(r: seq<nat>, t: nat, u: nat)
    requires t in r && t !in Without(r, t)
    ensures u in Without(r, t) <==> u in r && u != t
  {
    var k, v := Index(r, t), Without(r, t);
    if u in r && u != t {
      var i := Index(r, u);
      assert v[if i < k then i else i - 1] == u;
    }
  }

  // The a most recent entries, with empty ways after them.
  function Keep(r: seq<nat>, a: nat): (w: seq<nat>)
    ensures |w| == a
  {
    (r + seq(a, _ => 0))[..a]
  }

  // One access keeps the set at the a most recently used tags.
  lemma TouchKeeps(r: seq<nat>, a: nat, t: nat)
    requires 1 <= a && t != 0 && Unique(r) && 0 !in r
    ensures Touch(Keep(r, a), t) == Keep([t] + Without(r, t), a)
  {
    KeepAt(r, a);
    KeepAt([t] + Without(r, t), a);
    if t in r && Index(r, t) < a {
      IndexIs(Keep(r, a), t, Index(r, t));
      HitKeeps(r, a, t);
    } else {
      assert t !in Keep(r, a);
      MissKeeps(r, a, t);
    }
  }

  lemma HitKeeps(r: seq<nat>, a: nat, t: nat)
    requires t in r && Index(r, t) < a
    ensures MoveToFront(Keep(r, a), Index(r, t)) == Keep([t] + Without(r, t), a)
  {
    WithoutAt(r, t);
    KeepAt(r, a);
    KeepAt([t] + Without(r, t), a);
    var k, w := Index(r, t), Keep(r, a);
    var x, y := MoveToFront(w, k), Keep([t] + Without(r, t), a);
    forall i | 0 <= i < a
      ensures x[i] == y[i]
    {
      assert x[i] == if i == 0 then w[k] else if i <= k then w[i - 1] else w[i];
      if 0 < i <= |Without(r, t)| {
        assert ([t] + Without(r, t))[i] == Without(r, t)[i - 1];
      }
    }
  }

  lemma MissKeeps(r: seq<nat>, a: nat, t: nat)
    requires 1 <= a && (a <= Index(r, t) || t !in r)
    ensures [t] + Keep(r, a)[..a - 1] == Keep([t] + Without(r, t), a)
  {
    WithoutAt(r, t);
    KeepAt(r, a);
    KeepAt([t] + Without(r, t), a);
    var x, y := [t] + Keep(r, a)[..a - 1], Keep([t] + Without(r, t), a);
    forall i | 0 <= i < a
      ensures x[i] == y[i]
    {
      if i > 0 {
        assert x[i] == Keep(r, a)[i - 1];
      }
    }
  }

  lemma KeepAt(r: seq<nat>, a: nat)
    ensures forall i | 0 <= i < a :: Keep(r, a)[i] == if i < |r| then r[i] else 0
  {
  }

  lemma IndexIs(w: seq<nat>, t: nat, i: nat)
    requires i < |w| && w[i] == t && forall j | 0 <= j < i :: w[j] != t
    ensures Index(w, t) == i
  {
  }

  // The tags a set of associativity a holds after a trace of its accesses.
  function Ways(trace: seq<nat>, a: nat): (w: seq<nat>)
    ensures |w| == a
  {
    Keep(Recency(trace), a)
  }

  lemma WaysStep(trace: seq<nat>, a: nat, t: nat)
    requires 1 <= a && t != 0 && 0 !in trace
    ensures Ways(trace + [t], a) == Touch(Ways(trace, a), t)
  {
    RecencyIsByLastUse(trace);
    UniqueByRecency(trace, Recency(trace));
    TouchKeeps(Recency(trace), a, t);
    assert (trace + [t])[..|trace + [t]| - 1] == trace;
  }

  lemma UniqueByRecency(trace: seq<nat>, r: seq<nat>)
    requires ByRecency(trace, r)
    ensures Unique(r) && forall i, j | 0 <= i < j < |r| :: r[i] != r[j]
  {
    forall i, j | 0 <= i < j < |r|
      ensures r[i] != r[j]
    {
      assert Before(trace, r, i, j);
    }
  }

  // No tag is ever in two ways.
  lemma WaysUnique(trace: seq<nat>, a: nat)
    requires 0 !in trace
    ensures Unique(Ways(trace, a))
  {
    RecencyIsByLastUse(trace);
    UniqueByRecency(trace, Recency(trace));
    KeepAt(Recency(trace), a);
  }

  lemma HitsByPosition(trace: seq<nat>, a: nat, t: nat)
    requires t != 0 && 0 !in trace
    ensures t in Ways(trace, a) <==> t in trace && Index(Recency(trace), t) < a
  {
    RecencyIsByLastUse(trace);
    UniqueByRecency(trace, Recency(trace));
    var r, w := Recency(trace), Ways(trace, a);
    KeepAt(r, a);
    if t in w {
      var i := Index(w, t);
      assert r[i] == t;
      assert Index(r, t) < a;
    }
    var k := Index(r, t);
    if k < |r| && k < a {
      assert w[k] == t;
    }
  }

  // The tags used after the last use of t.
  function UsedSince(trace: seq<nat>, t: nat): set<nat> {
    set u | u in trace && LastUse(trace, u) > LastUse(trace, t)
  }

  // They stand before t in the recency list.
  lemma UsedSinceIsPrefix(trace: seq<nat>, t: nat)
    requires t in trace
    ensures Index(Recency(trace), t) < |Recency(trace)|
    ensures UsedSince(trace, t) == Elements(Recency(trace)[..Index(Recency(trace), t)])
  {
    RecencyIsByLastUse(trace);
    var r := Recency(trace);
    var k := Index(r, t);
    forall u: nat
      ensures u in UsedSince(trace, t) <==> u in r[..k]
    {
      if u in trace {
        var i := Index(r, u);
        if i < k {
          assert Before(trace, r, i, k) && r[..k][i] == u;
        } else if k < i {
          assert Before(trace, r, k, i);
          NotInPrefix(trace, r, i, k);
        } else {
          NotInPrefix(trace, r, i, k);
        }
      }
    }
  }

  lemma NotInPrefix(trace: seq<nat>, r: seq<nat>, i: nat, k: nat)
    requires ByRecency(trace, r) && k <= i < |r|
    ensures r[i] !in r[..k]
  {
    UniqueByRecency(trace, r);
  }

  lemma {:induction false} PrefixSize(r: seq<nat>)
    requires forall i, j | 0 <= i < j < |r| :: r[i] != r[j]
    ensures |Elements(r)| == |r|
  {
    if r != [] {
      var n := |r| - 1;
      PrefixSize(r[..n]);
      ElementsPush(r[..n], r[n]);
      assert r == r[..n] + [r[n]];
      assert r[n] !in r[..n];
    }
  }

  function Elements(r: seq<nat>): set<nat> {
    set u | u in r
  }

  lemma ElementsPush(r: seq<nat>, t: nat)
    ensures Elements(r + [t]) == Elements(r) + {t}
  {
  }

  // An access hits exactly when its tag has been used before and fewer than a other tags since.
  lemma HitsExactly(trace: seq<nat>, a: nat, t: nat)
    requires t != 0 && 0 !in trace
    ensures t in Ways(trace, a) <==> t in trace && |UsedSince(trace, t)| < a
  {
    HitsByPosition(trace, a, t);
    if t in trace {
      UsedSinceIsPrefix(trace, t);
      RecencyIsByLastUse(trace);
      var r := Recency(trace);
      UniqueByRecency(trace, r);
      PrefixSize(r[..Index(r, t)]);
    }
  }

  // Stack inclusion: what hits with some associativity hits with any larger one.
  lemma HitsGrow(trace: seq<nat>, a: nat, b: nat, t: nat)
    requires t != 0 && 0 !in trace && a <= b && t in Ways(trace, a)
    ensures t in Ways(trace, b)
  {
    HitsExactly(trace, a, t);
    HitsExactly(trace, b, t);
  }

  // The last way of a full set is the one unused for longest.
  lemma VictimIsOldest(trace: seq<nat>, a: nat, i: nat)
    requires 0 !in trace && i + 1 < a <= |Recency(trace)|
    ensures LastUse(trace, Ways(trace, a)[a - 1]) < LastUse(trace, Ways(trace, a)[i])
  {
    RecencyIsByLastUse(trace);
    assert Before(trace, Recency(trace), i, a - 1);
  }
}
