/**
 A set-associative cache under LRU, with a look-up and a fill after a miss.

 content is one array of pointers to lines; a set is a window of it, most recent way first.
 Hits and fills move one pointer to the front of its window and shift the others.
 */
module CacheLru {
  import opened Bits
  import opened CacheGeometry
  import opened LruLists

  class Line {
    var tag: nat

    constructor ()
      ensures tag == 0
    {
      tag := 0;
    }
  }

  ghost predicate AllDifferent(s: seq<Line>) {
    forall i, j | 0 <= i < j < |s| :: s[i] != s[j]
  }

  ghost predicate HasTags(s: seq<Line>, w: seq<nat>)
    reads s
  {
    |s| == |w| && forall i | 0 <= i < |s| :: s[i].tag == w[i]
  }

  // s has the tags w, and nothing done to the lines of t changes that.
  ghost predicate Stays(s: seq<Line>, w: seq<nat>, t: seq<Line>)
    reads s
  {
    HasTags(s, w) && forall i | 0 <= i < |s| :: s[i] !in t
  }

  method NewLines(n: nat) returns (s: seq<Line>)
    ensures |s| == n && AllDifferent(s)
    ensures forall i | 0 <= i < n :: fresh(s[i]) && s[i].tag == 0
  {
    s := [];
    while |s| < n
      invariant |s| <= n && AllDifferent(s)
      invariant forall i | 0 <= i < |s| :: fresh(s[i]) && s[i].tag == 0
    {
      var l := new Line();
      s := s + [l];
    }
  }

  // s with its window at p rearranged by bringing way k to the front.
  ghost function Moved(s: seq<Line>, p: nat, a: nat, k: nat): (r: seq<Line>)
    requires p + a <= |s| && k < a
    ensures |r| == |s|
  {
    s[..p] + MoveToFront(s[p..p + a], k) + s[p + a..]
  }

  lemma MovedIsDifferent(s: seq<Line>, p: nat, a: nat, k: nat)
    requires p + a <= |s| && k < a && AllDifferent(s)
    ensures AllDifferent(Moved(s, p, a, k))
  {
    hide Moved;
    var r := Moved(s, p, a, k);
    forall i, j | 0 <= i < j < |r|
      ensures r[i] != r[j]
    {
      MovedAt(s, p, a, k, i);
      MovedAt(s, p, a, k, j);
    }
  }

  lemma MovedAt(s: seq<Line>, p: nat, a: nat, k: nat, i: nat)
    requires p + a <= |s| && k < a && i < |s|
    ensures Source(p, k, i) < |s| && Moved(s, p, a, k)[i] == s[Source(p, k, i)]
  {
  }

  lemma MovedIsPermutation(s: seq<Line>, p: nat, a: nat, k: nat)
    requires p + a <= |s| && k < a
    ensures multiset(Moved(s, p, a, k)) == multiset(s)
  {
    var w := s[p..p + a];
    assert s == s[..p] + w + s[p + a..];
    assert w == w[..k] + [w[k]] + w[k + 1..];
  }

  lemma MovedWindow(s: seq<Line>, p: nat, a: nat, k: nat)
    requires p + a <= |s| && k < a
    ensures Moved(s, p, a, k)[p..p + a] == MoveToFront(s[p..p + a], k)
  {
  }

  lemma MovedElsewhere(s: seq<Line>, p: nat, a: nat, k: nat, q: nat)
    requires p + a <= |s| && k < a && q + a <= |s| && (p + a <= q || q + a <= p)
    ensures Moved(s, p, a, k)[q..q + a] == s[q..q + a]
  {
  }

  // Where the pointer at i of a rearranged array comes from.
  function Source(p: nat, k: nat, i: nat): nat {
    if i == p then p + k else if p < i <= p + k then i - 1 else i
  }

  lemma MovedTags(s: seq<Line>, w: seq<nat>, k: nat)
    requires HasTags(s, w) && k < |s|
    ensures HasTags(MoveToFront(s, k), MoveToFront(w, k))
  {
  }

  method ShiftOne(content: array<Line>, l: nat)
    requires 0 < l < content.Length
    modifies content
    ensures content[..] == old(content[..])[l := old(content[l - 1])]
  {
    content[l] := content[l - 1];
  }

  // Shift the pointers before way k by one and put that one in front.
  method Shift(content: array<Line>, p: nat, ghost a: nat, k: nat)
    requires p + a <= content.Length && k < a
    modifies content
    ensures content[..] == Moved(old(content[..]), p, a, k)
  {
    hide Moved, Shifting;
    ghost var was := content[..];
    var tmp := content[p + k];
    var l := p + k;
    ShiftingEnd(was, p + k, 0);
    while l > p
      invariant p <= l <= p + k
      invariant content[..] == Shifting(was, p + k, l)
    {
      ShiftingStep(was, p + k, l);
      ShiftOne(content, l);
      l := l - 1;
    }
    ShiftingEnd(was, p, k);
    ShiftIsMove(was, p, a, k);
    content[p] := tmp;
  }

  // The pointers once everything from l to e has moved up by one.
  ghost function Shifting(s: seq<Line>, e: nat, l: nat): (r: seq<Line>)
    requires l <= e < |s|
    ensures |r| == |s|
  {
    s[..l + 1] + s[l..e] + s[e + 1..]
  }

  lemma ShiftingStep(s: seq<Line>, e: nat, l: nat)
    requires 0 < l <= e < |s|
    ensures Shifting(s, e, l)[l := Shifting(s, e, l)[l - 1]] == Shifting(s, e, l - 1)
    ensures Shifting(s, e, e) == s
  {
    assert s[l - 1..e] == [s[l - 1]] + s[l..e];
  }

  lemma ShiftingEnd(s: seq<Line>, p: nat, k: nat)
    requires p + k < |s|
    ensures Shifting(s, p + k, p)[p := s[p + k]] == s[..p] + [s[p + k]] + s[p..p + k] + s[p + k + 1..]
    ensures k == 0 ==> Shifting(s, p, p) == s
  {
  }

  lemma ShiftIsMove(s: seq<Line>, p: nat, a: nat, k: nat)
    requires p + a <= |s| && k < a
    ensures s[..p] + [s[p + k]] + s[p..p + k] + s[p + k + 1..] == Moved(s, p, a, k)
  {
    var t := s[p..p + a];
    assert t[..k] == s[p..p + k] && t[k + 1..] == s[p + k + 1..p + a];
    assert s[p + k + 1..] == s[p + k + 1..p + a] + s[p + a..];
  }

  class CacheAssoc {
    const g: Layout
    const mem: seq<Line>
    const content: array<Line>

    // The pointers are a permutation of the lines.
    ghost predicate Valid()
      reads content
    {
      Laid(content[..]) && multiset(content[..]) == multiset(mem)
    }

    ghost predicate Laid(s: seq<Line>) {
      g.Ok() && |s| == g.numLines && AllDifferent(s)
    }

    // The window of the set that key selects.
    ghost function WindowOf(s: seq<Line>, key: nat): (w: seq<Line>)
      requires Laid(s)
      ensures |w| == g.assoc && forall i | 0 <= i < |w| :: w[i] in s
    {
      assert g.Inside(key);
      s[g.index(key)..g.index(key) + g.assoc]
    }

    ghost function Window(key: nat): (w: seq<Line>)
      requires Valid()
      reads content
      ensures |w| == g.assoc && forall i | 0 <= i < |w| :: w[i] in content[..]
    {
      WindowOf(content[..], key)
    }

    ghost predicate SameWindow(s: seq<Line>, r: seq<Line>, key: nat)
      requires Laid(s) && Laid(r)
    {
      WindowOf(r, key) == WindowOf(s, key)
    }

    // From s to r way k of the set of key comes to the front, and no other set changes.
    ghost predicate Brings(s: seq<Line>, r: seq<Line>, key: nat, k: nat) {
      && Laid(s) && Laid(r) && k < g.assoc
      && WindowOf(r, key) == MoveToFront(WindowOf(s, key), k)
      && forall other: nat | g.index(other) != g.index(key) :: SameWindow(s, r, other)
    }

    lemma MoveBrings(s: seq<Line>, key: nat, k: nat)
      requires Laid(s) && k < g.assoc
      ensures g.index(key) + g.assoc <= |s| && Brings(s, Moved(s, g.index(key), g.assoc, k), key, k)
    {
      hide Moved, MoveToFront;
      assert g.Inside(key);
      MoveLaid(s, key, k);
      MoveKey(s, key, k);
      forall other: nat | g.index(other) != g.index(key)
        ensures SameWindow(s, Moved(s, g.index(key), g.assoc, k), other)
      {
        MoveElsewhere(s, key, k, other);
      }
    }

    lemma MoveLaid(s: seq<Line>, key: nat, k: nat)
      requires Laid(s) && k < g.assoc && g.index(key) + g.assoc <= |s|
      ensures Laid(Moved(s, g.index(key), g.assoc, k))
    {
      hide MoveToFront;
      MovedIsDifferent(s, g.index(key), g.assoc, k);
    }

    lemma MoveKey(s: seq<Line>, key: nat, k: nat)
      requires Laid(s) && k < g.assoc && g.index(key) + g.assoc <= |s| && Laid(Moved(s, g.index(key), g.assoc, k))
      ensures WindowOf(Moved(s, g.index(key), g.assoc, k), key) == MoveToFront(WindowOf(s, key), k)
    {
      MovedWindow(s, g.index(key), g.assoc, k);
    }

    lemma MoveElsewhere(s: seq<Line>, key: nat, k: nat, other: nat)
      requires Laid(s) && k < g.assoc && g.index(other) != g.index(key) && g.index(key) + g.assoc <= |s|
      requires Laid(Moved(s, g.index(key), g.assoc, k))
      ensures SameWindow(s, Moved(s, g.index(key), g.assoc, k), other)
    {
      assert g.Inside(other);
      assert g.Apart(key, other);
      MovedElsewhere(s, g.index(key), g.assoc, k, g.index(other));
    }

    lemma FirstBrings(s: seq<Line>, key: nat)
      requires Laid(s)
      ensures Brings(s, s, key, 0)
    {
      assert MoveToFront(WindowOf(s, key), 0) == WindowOf(s, key);
    }

    method BringToFront(key: nat, k: nat)
      requires Valid() && k < g.assoc
      modifies content
      ensures Valid()
      ensures Brings(old(content[..]), content[..], key, k)
    {
      MoveBrings(content[..], key, k);
      MovedIsPermutation(content[..], g.index(key), g.assoc, k);
      Shift(content, g.index(key), g.assoc, k);
    }

    constructor (g: Layout)
      requires g.Ok()
      ensures Valid() && this.g == g && fresh(content) && Follows([])
      ensures forall i | 0 <= i < |mem| :: fresh(mem[i])
    {
      var lines := NewLines(g.numLines);
      this.g, mem := g, lines;
      content := new Line[g.numLines](i requires 0 <= i < |lines| => lines[i]);
      new;
      assert content[..] == lines;
      NothingCached();
    }

    // findLinePrivate: the line with the tag, brought to the front of its set, or null.
    method FindLine(key: nat, tag: nat, ghost w: seq<nat>) returns (line: Line?)
      requires Valid() && HasTags(Window(key), w)
      requires tag != 0 || 0 !in w || w[0] == 0
      modifies content
      ensures Valid()
      ensures tag !in w ==> line == null && content[..] == old(content[..])
      ensures tag in w ==> Brings(old(content[..]), content[..], key, Index(w, tag)) && line == Window(key)[0]
    {
      assert g.Inside(key);
      var p := g.index(key);
      assert content[p] == Window(key)[0];
      if content[p].tag == tag {
        FirstBrings(content[..], key);
        return content[p];
      }
      var k := 1;
      while k < g.assoc
        invariant 1 <= k <= g.assoc && forall j | 0 <= j < k :: w[j] != tag
      {
        assert content[p + k] == Window(key)[k];
        if content[p + k].tag == tag {
          IndexIs(w, tag, k);
          BringToFront(key, k);
          assert content[p] == Window(key)[0];
          return content[p];
        }
        k := k + 1;
      }
      line := null;
    }

    // findLine2Replace under LRU for a demand access: the line with the tag, or else the oldest
    // one; either way it comes to the front.  The tag is left for the caller to set.
    method FindLine2Replace(key: nat, tag: nat, ghost w: seq<nat>) returns (line: Line)
      requires Valid() && HasTags(Window(key), w) && tag != 0 && Unique(w)
      modifies content
      ensures Valid()
      ensures Brings(old(content[..]), content[..], key, Place(w, tag)) && line == Window(key)[0]
    {
      assert g.Inside(key);
      var p := g.index(key);
      var k := FindFromEnd(key, tag, w);
      if k == 0 {
        k := g.assoc - 1;
      } else {
        k := k - 1;
      }
      if k == 0 {
        FirstBrings(content[..], key);
        return content[p];
      }
      BringToFront(key, k);
      assert content[p] == Window(key)[0];
      line := content[p];
    }

    // The way an access brings to the front: the one with the tag, or the last.
    ghost function Place(w: seq<nat>, tag: nat): (k: nat)
      requires |w| == g.assoc && g.Ok()
      ensures k < |w|
    {
      if tag in w then Index(w, tag) else g.assoc - 1
    }

    // One more than the way with the tag, or 0.  The first way is looked at first of all.
    method FindFromEnd(key: nat, tag: nat, ghost w: seq<nat>) returns (k: nat)
      requires Valid() && HasTags(Window(key), w) && tag != 0 && Unique(w)
      ensures k == if tag in w then Index(w, tag) + 1 else 0
    {
      assert g.Inside(key);
      var p := g.index(key);
      assert content[p] == Window(key)[0];
      if content[p].tag == tag {
        return 1;
      }
      k := g.assoc;
      while 0 < k && content[p + k - 1].tag != tag
        invariant 0 <= k <= g.assoc && forall j | k <= j < g.assoc :: w[j] != tag
      {
        k := k - 1;
        assert content[p + k] == Window(key)[k];
      }
      if 0 < k {
        assert content[p + k - 1] == Window(key)[k - 1];
        OnlyPlace(w, tag, k - 1);
      }
    }

    lemma OnlyPlace(w: seq<nat>, tag: nat, k: nat)
      requires k < |w| && Unique(w) && tag != 0 && w[k] == tag
      ensures Index(w, tag) == k
    {
    }

    ghost predicate Apart(key: nat, other: nat)
      requires Valid()
      reads content
    {
      forall i | 0 <= i < g.assoc :: Window(key)[i] !in Window(other)
    }

    // No line is in two sets.
    lemma SetsApart(key: nat, other: nat)
      requires Valid() && g.index(key) != g.index(other)
      ensures Apart(other, key)
    {
      assert g.Inside(key);
      assert g.Inside(other);
      assert g.Apart(key, other);
      var s := content[..];
      forall i, j | 0 <= i < g.assoc && 0 <= j < g.assoc
        ensures Window(other)[i] != Window(key)[j]
      {
        assert Window(other)[i] == s[g.index(other) + i] && Window(key)[j] == s[g.index(key) + j];
      }
    }

    // fillLine: the set now starts with the tag; if it was absent, the last way has lost its own.
    method FillLine(key: nat, tag: nat, ghost w: seq<nat>) returns (line: Line)
      requires Valid() && HasTags(Window(key), w) && tag != 0 && Unique(w)
      modifies content, Window(key)
      ensures Valid()
      ensures Brings(old(content[..]), content[..], key, Place(w, tag)) && line == Window(key)[0]
      ensures HasTags(Window(key), Touch(w, tag))
    {
      MovedTags(Window(key), w, Place(w, tag));
      line := FindLine2Replace(key, tag, w);
      SetFront(key, tag, line, MoveToFront(w, Place(w, tag)));
    }

    method SetFront(key: nat, tag: nat, line: Line, ghost w: seq<nat>)
      requires Valid() && HasTags(Window(key), w) && line == Window(key)[0]
      modifies line
      ensures HasTags(Window(key), [tag] + w[1..])
    {
      WindowDifferent(key);
      line.tag := tag;
    }

    lemma WindowDifferent(key: nat)
      requires Valid()
      ensures AllDifferent(Window(key))
    {
      assert g.Inside(key);
    }

    // One access: a look-up, and a fill if it misses.
    method Access(tag: nat, ghost w: seq<nat>) returns (hit: bool)
      requires Valid() && HasTags(Window(tag), w) && tag != 0 && Unique(w)
      modifies content, Window(tag)
      ensures Valid()
      ensures Brings(old(content[..]), content[..], tag, Place(w, tag))
      ensures HasTags(Window(tag), Touch(w, tag)) && (hit <==> tag in w)
    {
      MovedTags(Window(tag), w, Place(w, tag));
      var line := FindLine(tag, tag, w);
      hit := line != null;
      if !hit {
        line := FillLine(tag, tag, w);
      }
    }

    // The same access, seen from the other sets.
    method AccessApart(ghost before: seq<nat>, tag: nat, ghost w: seq<nat>) returns (hit: bool)
      requires Valid() && HasTags(Window(tag), w) && tag != 0 && Unique(w)
      requires forall key: nat | g.index(key) != g.index(tag) ::
        Stays(Window(key), Ways(Only(before, key), g.assoc), Window(tag))
      modifies content, Window(tag)
      ensures Valid()
      ensures Brings(old(content[..]), content[..], tag, Place(w, tag))
      ensures HasTags(Window(tag), Touch(w, tag)) && (hit <==> tag in w)
      ensures forall key: nat | g.index(key) != g.index(tag) ::
        HasTags(old(Window(key)), Ways(Only(before, key), g.assoc))
    {
      hit := Access(tag, w);
      forall key: nat | g.index(key) != g.index(tag)
        ensures HasTags(old(Window(key)), Ways(Only(before, key), g.assoc))
      {
        assert old(Stays(Window(key), Ways(Only(before, key), g.assoc), Window(tag)));
      }
    }

    // The accesses of a trace that go to the set of key.
    ghost function Only(trace: seq<nat>, key: nat): (r: seq<nat>)
      requires g.Ok()
      ensures forall t | t in r :: t in trace
    {
      if trace == [] then [] else
        var t := trace[|trace| - 1];
        var r := Only(trace[..|trace| - 1], key);
        if g.index(t) == g.index(key) then r + [t] else r
    }

    lemma {:induction false} SameSet(trace: seq<nat>, key: nat, other: nat)
      requires g.Ok() && g.index(key) == g.index(other)
      ensures Only(trace, key) == Only(trace, other)
    {
      if trace != [] {
        SameSet(trace[..|trace| - 1], key, other);
      }
    }

    // Every set holds the most recently used tags of its own accesses.
    ghost predicate Follows(trace: seq<nat>)
      requires Valid()
      reads content, content[..]
    {
      forall key: nat :: SetFollows(trace, key)
    }

    ghost predicate SetFollows(trace: seq<nat>, key: nat)
      requires Valid()
      reads content, content[..]
    {
      HasTags(Window(key), Ways(Only(trace, key), g.assoc))
    }

    lemma NextWays(before: seq<nat>, tag: nat, key: nat)
      requires g.Ok() && 0 !in before && tag != 0
      ensures Ways(Only(before + [tag], key), g.assoc)
           == if g.index(key) == g.index(tag) then Touch(Ways(Only(before, tag), g.assoc), tag)
              else Ways(Only(before, key), g.assoc)
    {
      assert (before + [tag])[..|before + [tag]| - 1] == before;
      if g.index(key) == g.index(tag) {
        SameSet(before, tag, key);
        WaysStep(Only(before, tag), g.assoc, tag);
      }
    }

    lemma FollowsNext(before: seq<nat>, tag: nat, was: seq<Line>)
      requires Valid() && 0 !in before && tag != 0
      requires Brings(was, content[..], tag, Place(Ways(Only(before, tag), g.assoc), tag))
      requires HasTags(Window(tag), Touch(Ways(Only(before, tag), g.assoc), tag))
      requires forall key: nat | g.index(key) != g.index(tag) ::
        HasTags(WindowOf(was, key), Ways(Only(before, key), g.assoc))
      ensures Follows(before + [tag])
    {
      forall key: nat
        ensures SetFollows(before + [tag], key)
      {
        SetFollowsNext(before, tag, was, key);
      }
    }

    lemma SetFollowsNext(before: seq<nat>, tag: nat, was: seq<Line>, key: nat)
      requires Valid() && 0 !in before && tag != 0
      requires Laid(was) && HasTags(Window(tag), Touch(Ways(Only(before, tag), g.assoc), tag))
      requires g.index(key) != g.index(tag) ==>
        SameWindow(was, content[..], key) && HasTags(WindowOf(was, key), Ways(Only(before, key), g.assoc))
      ensures SetFollows(before + [tag], key)
    {
      NextWays(before, tag, key);
      TagsAt(key, tag, was, Ways(Only(before, key), g.assoc), Touch(Ways(Only(before, tag), g.assoc), tag));
    }

    lemma TagsAt(key: nat, tag: nat, was: seq<Line>, v: seq<nat>, u: seq<nat>)
      requires Valid() && Laid(was) && HasTags(Window(tag), u)
      requires g.index(key) != g.index(tag) ==> SameWindow(was, content[..], key) && HasTags(WindowOf(was, key), v)
      ensures HasTags(Window(key), if g.index(key) == g.index(tag) then u else v)
    {
    }

    lemma InMemory(key: nat)
      requires Valid()
      ensures forall i | 0 <= i < g.assoc :: Window(key)[i] in mem
    {
      forall i | 0 <= i < g.assoc
        ensures Window(key)[i] in mem
      {
        assert Window(key)[i] in multiset(content[..]);
      }
    }

    // Access for access, the cache keeps holding what its trace says, and hits just when the
    // tag is among the most recently used of its set.
    method Step(ghost before: seq<nat>, tag: nat) returns (hit: bool)
      requires Valid() && Follows(before) && 0 !in before && tag != 0
      modifies content, mem
      ensures Valid() && Follows(before + [tag])
      ensures hit <==> tag in Ways(Only(before, tag), g.assoc)
    {
      ghost var was := content[..];
      WaysUnique(Only(before, tag), g.assoc);
      OthersStay(before, tag);
      InMemory(tag);
      assert SetFollows(before, tag);
      hit := AccessApart(before, tag, Ways(Only(before, tag), g.assoc));
      FollowsNext(before, tag, was);
    }

    lemma OthersStay(before: seq<nat>, tag: nat)
      requires Valid() && Follows(before)
      ensures forall key: nat | g.index(key) != g.index(tag) ::
        Stays(Window(key), Ways(Only(before, key), g.assoc), Window(tag))
    {
      forall key: nat | g.index(key) != g.index(tag)
        ensures Stays(Window(key), Ways(Only(before, key), g.assoc), Window(tag))
      {
        SetsApart(tag, key);
        assert SetFollows(before, key);
      }
    }

    // The i-th access of a trace hits just when its tag was used before and fewer than assoc other
    // tags of its set have been used since.
    ghost predicate HitAt(trace: seq<nat>, i: nat, hit: bool)
      requires g.Ok() && i < |trace|
    {
      var past := Only(trace[..i], trace[i]);
      hit <==> trace[i] in past && |UsedSince(past, trace[i])| < g.assoc
    }

    ghost predicate AllHits(trace: seq<nat>, hits: seq<bool>)
      requires g.Ok() && |hits| <= |trace|
    {
      forall i | 0 <= i < |hits| :: HitAt(trace, i, hits[i])
    }

    lemma NoHits(trace: seq<nat>)
      requires g.Ok()
      ensures AllHits(trace, [])
    {
    }

    lemma MoreHits(trace: seq<nat>, hits: seq<bool>, hit: bool)
      requires g.Ok() && |hits| < |trace| && AllHits(trace, hits) && HitAt(trace, |hits|, hit)
      ensures AllHits(trace, hits + [hit])
    {
    }

    // From an empty cache, any trace of accesses.
    method Run(trace: seq<nat>) returns (hits: seq<bool>)
      requires Valid() && Follows([]) && 0 !in trace
      modifies content, mem
      ensures Valid() && Follows(trace) && |hits| == |trace| && AllHits(trace, hits)
    {
      hide AllHits, HitAt, Follows;
      hits := [];
      NoHits(trace);
      while |hits| < |trace|
        invariant Valid() && |hits| <= |trace| && Follows(trace[..|hits|])
        invariant AllHits(trace, hits)
      {
        var hit := StepAt(trace, |hits|);
        MoreHits(trace, hits, hit);
        hits := hits + [hit];
      }
      assert trace[..|trace|] == trace;
    }

    method StepAt(trace: seq<nat>, i: nat) returns (hit: bool)
      requires Valid() && i < |trace| && Follows(trace[..i]) && 0 !in trace
      modifies content, mem
      ensures Valid() && Follows(trace[..i + 1]) && HitAt(trace, i, hit)
    {
      hit := Step(trace[..i], trace[i]);
      HitsExactly(Only(trace[..i], trace[i]), g.assoc, trace[i]);
      assert trace[..i] + [trace[i]] == trace[..i + 1];
    }

    lemma NothingCached()
      requires Valid() && forall i | 0 <= i < |mem| :: mem[i].tag == 0
      ensures Follows([])
    {
      forall key: nat
        ensures SetFollows([], key)
      {
        InMemory(key);
        KeepAt([], g.assoc);
      }
    }
  }

  // The accesses of a trace to the set of tag t, among 2^w sets.
  ghost function SetTrace(trace: seq<nat>, t: nat, w: nat, xr: bool): seq<nat> {
    if trace == [] then [] else
      var n := |trace| - 1;
      SetTrace(trace[..n], t, w, xr) + if SameSet(trace[n], t, w, xr) then [trace[n]] else []
  }

  lemma {:induction false} OnlyIsSetTrace(cache: CacheAssoc, g: Geometry, trace: seq<nat>, t: nat)
    requires g.Valid() && cache.g == LayoutOf(g) && cache.g.Ok()
    ensures cache.Only(trace, t) == SetTrace(trace, t, g.log2Sets, g.xorIndex)
  {
    hide SameSet;
    if trace != [] {
      OnlyIsSetTrace(cache, g, trace[..|trace| - 1], t);
      SharesSet(g, trace[|trace| - 1], t);
    }
  }

  // The i-th access hits just when its tag was used before and fewer than assoc other tags of its
  // set have been used since.
  ghost predicate Hits(trace: seq<nat>, i: nat, hit: bool, assoc: nat, w: nat, xr: bool)
    requires i < |trace|
  {
    var past := SetTrace(trace[..i], trace[i], w, xr);
    hit <==> trace[i] in past && |UsedSince(past, trace[i])| < assoc
  }

  // From sizes to hits: a cache is made unless it is too small, and follows its trace from empty.
  // It has 2^w sets, as many as the rounded number of lines allows, and a tag goes to the set of its
  // remainder, or of its hash.
  method Simulate(s: nat, a: nat, b: nat, xr: bool, trace: seq<nat>)
      returns (cache: CacheAssoc?, hits: seq<bool>, ghost w: nat)
    requires 1 <= a && 1 <= b && s < TWO32 / 2 && 0 !in trace
    requires a <= s / b ==> RoundUp(s / b) - s / b <= RoundUp(a) - a
    ensures cache == null <==> s / b < a
    ensures cache != null ==> cache.Valid() && cache.g.numLines == s / b && Pow2(w) * RoundUp(a) == RoundUp(s / b)
    ensures cache != null ==> |hits| == |trace| && forall i | 0 <= i < |hits| :: Hits(trace, i, hits[i], a, w, xr)
  {
    hide RoundUp, Pow2;
    var r := Create(s, a, b, xr);
    if r == TooSmall {
      return null, [], 0;
    }
    LayoutIsOk(r.g);
    cache, hits := Follow(LayoutOf(r.g), trace);
    w := r.g.log2Sets;
    forall i | 0 <= i < |hits|
      ensures Hits(trace, i, hits[i], a, w, xr)
    {
      assert cache.HitAt(trace, i, hits[i]);
      OnlyIsSetTrace(cache, r.g, trace[..i], trace[i]);
    }
  }

  method Follow(g: Layout, trace: seq<nat>) returns (cache: CacheAssoc, hits: seq<bool>)
    requires g.Ok() && 0 !in trace
    ensures cache.g == g && cache.Valid() && cache.Follows(trace)
    ensures |hits| == |trace| && cache.AllHits(trace, hits)
  {
    cache := new CacheAssoc(g);
    hits := cache.Run(trace);
  }

  // calcTag for all addresses.
  method Tags(addrs: seq<nat>, b: nat) returns (tags: seq<nat>)
    requires 1 <= b < TWO32 / 2
    ensures |tags| == |addrs| && forall i | 0 <= i < |tags| :: tags[i] == addrs[i] / RoundUp(b)
  {
    var log2AddrLs := Log2i(b);
    tags := [];
    for i := 0 to |addrs|
      invariant |tags| == i && forall k | 0 <= k < i :: tags[k] == addrs[k] / RoundUp(b)
    {
      ShrIsDiv(addrs[i], log2AddrLs);
      tags := tags + [Shr(addrs[i], log2AddrLs)];
    }
  }

  // The same from byte addresses beyond the first line.
  method SimulateAddresses(s: nat, a: nat, b: nat, xr: bool, addrs: seq<nat>)
      returns (cache: CacheAssoc?, hits: seq<bool>, ghost w: nat, ghost lines: seq<nat>)
    requires 1 <= a && 1 <= b < TWO32 / 2 && s < TWO32 / 2 && forall i | 0 <= i < |addrs| :: RoundUp(b) <= addrs[i]
    requires a <= s / b ==> RoundUp(s / b) - s / b <= RoundUp(a) - a
    ensures cache == null <==> s / b < a
    ensures |lines| == |addrs| && forall i | 0 <= i < |lines| :: lines[i] == addrs[i] / RoundUp(b)
    ensures cache != null ==> Pow2(w) * RoundUp(a) == RoundUp(s / b) && |hits| == |addrs|
    ensures cache != null ==> forall i | 0 <= i < |hits| :: Hits(lines, i, hits[i], a, w, xr)
  {
    RoundUpIsLeast(b);
    hide RoundUp, Pow2;
    var tags := Tags(addrs, b);
    forall i | 0 <= i < |tags|
      ensures tags[i] != 0
    {
      NotFirstLine(addrs[i], RoundUp(b));
    }
    lines := tags;
    cache, hits, w := Simulate(s, a, b, xr, tags);
  }

  lemma NotFirstLine(x: nat, y: nat)
    requires 0 < y <= x
    ensures x / y != 0
  {
    assert x == (x / y) * y + x % y;
  }
}
