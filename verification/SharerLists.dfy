/**
 The list of sharers that a directory line remembers: at most 64 ports, after which requests
 are broadcast and the list is truncated.
 */
module SharerLists {
  const MAXNSHARERS: nat := 64

  ghost predicate Distinct(s: seq<int>) {
    forall i, j | 0 <= i < j < |s| :: s[i] != s[j]
  }

  function IndexOf(s: seq<int>, p: int): (i: nat)
    ensures i <= |s| && (i < |s| ==> s[i] == p)
    ensures forall j | 0 <= j < i :: s[j] != p
  {
    if s == [] || s[0] == p then 0 else 1 + IndexOf(s[1..], p)
  }

  function Without(s: seq<int>, p: int): seq<int> {
    if IndexOf(s, p) < |s| then s[..IndexOf(s, p)] + s[IndexOf(s, p) + 1..] else s
  }

  function Added(s: seq<int>, p: int): seq<int> {
    if |s| >= MAXNSHARERS || p < 0 || p in s then s else s + [p]
  }

  function Removed(s: seq<int>, p: int): seq<int> {
    if |s| >= MAXNSHARERS then s else Without(s, p)
  }

  // An invalidation acknowledged while broadcasting also forgets the last port.
  function Acked(s: seq<int>, p: int): seq<int> {
    Removed(if |s| >= MAXNSHARERS then s[..MAXNSHARERS - 1] else s, p)
  }

  ghost function Ports(s: seq<int>): set<int> {
    set p | p in s
  }

  ghost predicate IsList(s: seq<int>) {
    Distinct(s) && |s| <= MAXNSHARERS && forall i | 0 <= i < |s| :: s[i] >= 0
  }

  lemma IndexIs(s: seq<int>, p: int, i: nat)
    requires i < |s| && s[i] == p && forall j | 0 <= j < i :: s[j] != p
    ensures IndexOf(s, p) == i
  {
  }

  lemma WithoutIsRemoval(s: seq<int>, p: int)
    requires IsList(s)
    ensures IsList(Without(s, p)) && Ports(Without(s, p)) == Ports(s) - {p}
  {
    var k, v := IndexOf(s, p), Without(s, p);
    if k < |s| {
      assert forall i | 0 <= i < |v| :: v[i] == s[if i < k then i else i + 1];
      forall q | q in Ports(s) - {p}
        ensures q in Ports(v)
      {
        var i :| 0 <= i < |s| && s[i] == q;
        assert v[if i < k then i else i - 1] == q;
      }
      assert p !in v;
    }
  }

  lemma PrefixIsList(s: seq<int>)
    requires IsList(s) && |s| == MAXNSHARERS
    ensures IsList(s[..MAXNSHARERS - 1])
    ensures Ports(s[..MAXNSHARERS - 1]) == Ports(s) - {s[MAXNSHARERS - 1]}
  {
    var v := s[..MAXNSHARERS - 1];
    forall q | q in Ports(s) - {s[MAXNSHARERS - 1]}
      ensures q in Ports(v)
    {
      var i :| 0 <= i < |s| && s[i] == q;
      assert v[i] == q;
    }
  }

  // A list stays a list of distinct ports under every update.
  lemma UpdatesKeepList(s: seq<int>, p: int)
    requires IsList(s)
    ensures IsList(Added(s, p)) && IsList(Removed(s, p)) && IsList(Acked(s, p))
  {
    WithoutIsRemoval(s, p);
    if |s| == MAXNSHARERS {
      PrefixIsList(s);
      WithoutIsRemoval(s[..MAXNSHARERS - 1], p);
    }
  }

  // A request is remembered exactly when there is room or it was there already.
  lemma AddedExactly(s: seq<int>, p: int)
    requires IsList(s) && 0 <= p
    ensures Ports(Added(s, p)) == Ports(s) + {p} <==> |s| < MAXNSHARERS || p in s
  {
    if |s| < MAXNSHARERS || p in s {
      assert Ports(Added(s, p)) == Ports(s) + {p};
    } else {
      assert p !in Ports(Added(s, p)) && p in Ports(s) + {p};
    }
  }

  // A displacement is forgotten exactly when the line is not broadcasting or never had the port.
  lemma RemovedExactly(s: seq<int>, p: int)
    requires IsList(s)
    ensures Ports(Removed(s, p)) == Ports(s) - {p} <==> |s| < MAXNSHARERS || p !in s
  {
    if |s| < MAXNSHARERS {
      WithoutIsRemoval(s, p);
    } else if p in s {
      assert p in Ports(Removed(s, p)) && p !in Ports(s) - {p};
    } else {
      assert Ports(s) - {p} == Ports(s);
    }
  }

  // An invalidation acknowledgement takes out just its own port exactly when the line is not
  // broadcasting or the port happens to be the last one.
  lemma AckedExactly(s: seq<int>, p: int)
    requires IsList(s)
    ensures Ports(Acked(s, p)) == Ports(s) - {p} <==> |s| < MAXNSHARERS || p == s[MAXNSHARERS - 1]
  {
    if |s| < MAXNSHARERS {
      WithoutIsRemoval(s, p);
    } else {
      PrefixIsList(s);
      WithoutIsRemoval(s[..MAXNSHARERS - 1], p);
      var last := s[MAXNSHARERS - 1];
      assert last in Ports(s) && last !in Ports(Acked(s, p));
    }
  }

  // Distinct ports below n are at most n.
  lemma {:induction false} FewPorts(s: seq<int>, n: nat)
    requires Distinct(s) && forall i | 0 <= i < |s| :: 0 <= s[i] < n
    ensures |s| <= n
  {
    if n > 0 {
      var k := IndexOf(s, n - 1);
      if k < |s| {
        var v := s[..k] + s[k + 1..];
        assert forall i | 0 <= i < |v| :: v[i] == s[if i < k then i else i + 1];
        FewPorts(v, n - 1);
      } else {
        FewPorts(s, n - 1);
      }
    }
  }
}
