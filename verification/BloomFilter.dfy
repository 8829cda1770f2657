/**
 A counting Bloom filter: several vectors of counters, each indexed by its own chunk of the
 address bits.  The counters are the tallies of a multiset of elements that is never stored.
 */
module BloomFilters {
  import opened Bits

  // How many elements of m below n have hash x.
  ghost function Tally(m: multiset<nat>, f: nat -> nat, x: nat, n: nat): nat {
    if n == 0 then 0 else Tally(m, f, x, n - 1) + if f(n - 1) == x then m[n - 1] else 0
  }

  lemma {:induction false} TallySum(a: multiset<nat>, b: multiset<nat>, f: nat -> nat, x: nat, n: nat)
    ensures Tally(a + b, f, x, n) == Tally(a, f, x, n) + Tally(b, f, x, n)
  {
    if n > 0 {
      TallySum(a, b, f, x, n - 1);
    }
  }

  lemma {:induction false} TallyOne(e: nat, f: nat -> nat, x: nat, n: nat)
    ensures Tally(multiset{e}, f, x, n) == if e < n && f(e) == x then 1 else 0
  {
    if n > 0 {
      TallyOne(e, f, x, n - 1);
    }
  }

  lemma {:induction false} TallyNone(f: nat -> nat, x: nat, n: nat)
    ensures Tally(multiset{}, f, x, n) == 0
  {
    if n > 0 {
      TallyNone(f, x, n - 1);
    }
  }

  // Only the values of the hash matter.
  lemma {:induction false} TallyAlike(m: multiset<nat>, f: nat -> nat, g: nat -> nat, x: nat, n: nat)
    requires forall e: nat :: f(e) == g(e)
    ensures Tally(m, f, x, n) == Tally(m, g, x, n)
  {
    if n > 0 {
      TallyAlike(m, f, g, x, n - 1);
    }
  }

  lemma TallyDifference(a: multiset<nat>, b: multiset<nat>, f: nat -> nat, x: nat, n: nat)
    requires b <= a
    ensures Tally(a, f, x, n) == Tally(a - b, f, x, n) + Tally(b, f, x, n)
  {
    TallySum(a - b, b, f, x, n);
    assert (a - b) + b == a;
  }

  lemma TallyMember(a: multiset<nat>, e: nat, f: nat -> nat, n: nat)
    requires e in a && e < n
    ensures Tally(a, f, f(e), n) > 0
  {
    TallyDifference(a, multiset{e}, f, f(e), n);
    TallyOne(e, f, f(e), n);
  }

  function NonZero(s: seq<int>): nat {
    if s == [] then 0 else NonZero(s[..|s| - 1]) + if s[|s| - 1] == 0 then 0 else 1
  }

  lemma {:induction false} NonZeroSet(s: seq<int>, i: nat, v: int)
    requires i < |s|
    ensures NonZero(s[i := v]) == NonZero(s) - (if s[i] == 0 then 0 else 1) + if v == 0 then 0 else 1
  {
    var n := |s| - 1;
    if i < n {
      NonZeroSet(s[..n], i, v);
      assert s[i := v][..n] == s[..n][i := v];
    } else {
      assert s[i := v][..n] == s[..n];
    }
  }

  lemma {:induction false} NonZeroOfZeros(s: seq<int>)
    requires forall i | 0 <= i < |s| :: s[i] == 0
    ensures NonZero(s) == 0
  {
    if s != [] {
      NonZeroOfZeros(s[..|s| - 1]);
    }
  }

  // Chunk i of a word: its bits from the sum of the widths before, as many as its width.
  function Offset(bits: seq<nat>, i: nat): nat
    requires i <= |bits|
  {
    if i == 0 then 0 else Offset(bits, i - 1) + bits[i - 1]
  }

  // Every bit below the sum of the widths is in one chunk, and in no other.
  lemma {:induction false} OneChunk(bits: seq<nat>, n: nat, x: nat)
    requires n <= |bits| && x < Offset(bits, n)
    ensures exists i: nat :: i < n && InChunk(bits, i, x)
    ensures forall i: nat, k: nat | i < |bits| && k < |bits| && InChunk(bits, i, x) && InChunk(bits, k, x) :: i == k
  {
    if x < Offset(bits, n - 1) {
      OneChunk(bits, n - 1, x);
    } else {
      assert InChunk(bits, n - 1, x);
      forall i: nat, k: nat | i < k < |bits| && InChunk(bits, i, x)
        ensures !InChunk(bits, k, x)
      {
        OffsetGrows(bits, i + 1, k);
      }
    }
  }

  ghost predicate InChunk(bits: seq<nat>, i: nat, x: nat)
    requires i < |bits|
  {
    Offset(bits, i) <= x < Offset(bits, i) + bits[i]
  }

  lemma {:induction false} OffsetGrows(bits: seq<nat>, i: nat, k: nat)
    requires i <= k <= |bits|
    ensures Offset(bits, i) <= Offset(bits, k)
    decreases k
  {
    if i < k {
      OffsetGrows(bits, i, k - 1);
    }
  }

  function GetIndex(val: nat, mask: nat, shift: nat, size: nat): (r: nat)
    requires 0 < size
    ensures r < size
  {
    Shr(And(val, mask), shift) % size
  }

  lemma ChunkBits(val: nat, mask: nat, shift: nat, width: nat)
    requires mask == Shl(Pow2(width) - 1, shift)
    ensures Shr(And(val, mask), shift) == Low(Shr(val, shift), width)
  {
    forall j: nat
      ensures Bit(Shr(And(val, mask), shift), j) <==> Bit(Low(Shr(val, shift), width), j)
    {
      BitShr(And(val, mask), shift, j);
      BitAnd(val, mask, j + shift);
      BitShl(Pow2(width) - 1, shift, j + shift);
      MaskBit(width, j);
      BitLow(Shr(val, shift), width, j);
      BitShr(val, shift, j);
    }
    SameBits(Shr(And(val, mask), shift), Low(Shr(val, shift), width));
  }

  lemma OneMoreMaskBit(m: nat)
    ensures Or(Pow2(m) - 1, Shl(1, m)) == Pow2(m + 1) - 1
  {
    var x := Or(Pow2(m) - 1, Shl(1, m));
    forall j: nat
      ensures Bit(x, j) <==> Bit(Pow2(m + 1) - 1, j)
    {
      BitOr(Pow2(m) - 1, Shl(1, m), j);
      MaskBit(m, j);
      MaskBit(m + 1, j);
      BitShl(1, m, j);
      if m < j {
        BitZero(j - m - 1);
        assert 1 / 2 == 0;
      }
    }
    SameBits(x, Pow2(m + 1) - 1);
  }

  // The mask of chunk i.
  ghost predicate MaskOk(bits: seq<nat>, i: nat, mask: nat, shift: nat)
    requires i < |bits|
  {
    mask == Shl(Pow2(bits[i]) - 1, shift) && shift == Offset(bits, i)
  }

  // initMasks: the mask and shift of every chunk, with all chunks inside the 32-bit word.
  method InitMasks(bits: seq<nat>) returns (masks: seq<nat>, shifts: seq<nat>)
    requires Offset(bits, |bits|) <= 32 && forall i | 0 <= i < |bits| :: 0 < bits[i] < 32
    ensures |masks| == |shifts| == |bits| && forall i | 0 <= i < |bits| :: MaskOk(bits, i, masks[i], shifts[i])
  {
    masks, shifts := [], [];
    var totShift := 0;
    for i := 0 to |bits|
      invariant |masks| == |shifts| == i && totShift == Offset(bits, i)
      invariant forall k | 0 <= k < i :: MaskOk(bits, k, masks[k], shifts[k])
    {
      var mask := OnesBelow(bits[i]);
      mask := Shl(mask, totShift);
      masks, shifts := masks + [mask], shifts + [totShift];
      totShift := totShift + bits[i];
    }
  }

  method OnesBelow(width: nat) returns (mask: nat)
    ensures mask == Pow2(width) - 1
  {
    mask := 0;
    for m := 0 to width
      invariant mask == Pow2(m) - 1
    {
      OneMoreMaskBit(m);
      mask := Or(mask, Shl(1, m));
    }
  }

  class BloomFilter {
    const built: bool
    const vSize: seq<nat>
    const hash: seq<nat -> nat>
    const countVec: seq<array<int>>
    const nonZeroCount: array<int>
    ghost var elements: multiset<nat>

    ghost predicate Shape() {
      && |hash| == |countVec| == |vSize| == nonZeroCount.Length
      && (forall v | 0 <= v < |vSize| :: countVec[v].Length == vSize[v] && countVec[v] != nonZeroCount)
      && (forall u, v | 0 <= u < v < |vSize| :: countVec[u] != countVec[v])
      && forall v, e: nat | 0 <= v < |vSize| :: hash[v](e) < vSize[v]
    }

    // Vector v counts the elements m, and knows how many of its counters are not zero.
    ghost predicate Counts(v: nat, m: multiset<nat>)
      requires Shape() && v < |vSize|
      reads countVec[v], nonZeroCount
    {
      && nonZeroCount[v] == NonZero(countVec[v][..])
      && forall x: nat | x < vSize[v] :: countVec[v][x] == Tally(m, hash[v], x, TWO32)
    }

    ghost predicate Valid()
      reads this, countVec, nonZeroCount
    {
      && Shape() && (forall e | e in elements :: e < TWO32)
      && (built ==> forall v | 0 <= v < |vSize| :: Counts(v, elements))
    }

    method Insert(e: nat)
      requires Valid() && e < TWO32
      modifies `elements, countVec, nonZeroCount
      ensures Valid() && elements == old(elements) + if built then multiset{e} else multiset{}
    {
      if !built {
        return;
      }
      ghost var m := elements + multiset{e};
      for i := 0 to |vSize|
        invariant elements == old(elements) && forall v | 0 <= v < i :: Counts(v, m)
        invariant forall v | i <= v < |vSize| :: Counts(v, elements)
      {
        InsertAt(i, e, elements);
      }
      elements := m;
    }

    method InsertAt(i: nat, e: nat, ghost m: multiset<nat>)
      requires Shape() && i < |vSize| && e < TWO32 && Counts(i, m)
      modifies countVec[i], nonZeroCount
      ensures Counts(i, m + multiset{e})
      ensures forall v, k | 0 <= v < |vSize| && v != i && old(Counts(v, k)) :: Counts(v, k)
    {
      Apart(i);
      var idx := hash[i](e);
      NonZeroSet(countVec[i][..], idx, countVec[i][idx] + 1);
      TallyMemberSum(m, e, i);
      if countVec[i][idx] == 0 {
        nonZeroCount[i] := nonZeroCount[i] + 1;
      }
      ghost var was := countVec[i][..];
      countVec[i][idx] := countVec[i][idx] + 1;
      assert countVec[i][..] == was[idx := was[idx] + 1];
      forall v, k | 0 <= v < |vSize| && v != i && old(Counts(v, k))
        ensures Counts(v, k)
      {
        assert countVec[v][..] == old(countVec[v][..]);
      }
    }

    lemma Apart(i: nat)
      requires Shape() && i < |vSize|
      ensures forall v | 0 <= v < |vSize| && v != i :: countVec[v] != countVec[i]
    {
    }

    lemma TallyMemberSum(m: multiset<nat>, e: nat, i: nat)
      requires Shape() && i < |vSize| && e < TWO32
      ensures forall x: nat ::
          Tally(m + multiset{e}, hash[i], x, TWO32) == Tally(m, hash[i], x, TWO32) + if hash[i](e) == x then 1 else 0
      ensures Tally(m, hash[i], hash[i](e), TWO32) >= 0
    {
      forall x: nat
        ensures Tally(m + multiset{e}, hash[i], x, TWO32) ==
                Tally(m, hash[i], x, TWO32) + if hash[i](e) == x then 1 else 0
      {
        TallySum(m, multiset{e}, hash[i], x, TWO32);
        TallyOne(e, hash[i], x, TWO32);
      }
    }

    // Only an element that is in may be taken out.
    method Remove(e: nat)
      requires Valid() && (built ==> e in elements)
      modifies `elements, countVec, nonZeroCount
      ensures Valid() && elements == old(elements) - if built then multiset{e} else multiset{}
    {
      if !built {
        return;
      }
      ghost var m := elements - multiset{e};
      assert elements == m + multiset{e};
      for i := 0 to |vSize|
        invariant elements == old(elements) && forall v | 0 <= v < i :: Counts(v, m)
        invariant forall v | i <= v < |vSize| :: Counts(v, elements)
      {
        RemoveAt(i, e, m);
      }
      elements := m;
    }

    method RemoveAt(i: nat, e: nat, ghost m: multiset<nat>)
      requires Shape() && i < |vSize| && e < TWO32 && Counts(i, m + multiset{e})
      modifies countVec[i], nonZeroCount
      ensures Counts(i, m)
      ensures forall v, k | 0 <= v < |vSize| && v != i && old(Counts(v, k)) :: Counts(v, k)
    {
      Apart(i);
      var idx := hash[i](e);
      NonZeroSet(countVec[i][..], idx, countVec[i][idx] - 1);
      TallyMemberSum(m, e, i);
      ghost var was := countVec[i][..];
      countVec[i][idx] := countVec[i][idx] - 1;
      assert countVec[i][..] == was[idx := was[idx] - 1];
      assert countVec[i][idx] >= 0;
      if countVec[i][idx] == 0 {
        NonZeroPositive(was, idx);
        nonZeroCount[i] := nonZeroCount[i] - 1;
      }
      forall v, k | 0 <= v < |vSize| && v != i && old(Counts(v, k))
        ensures Counts(v, k)
      {
        assert countVec[v][..] == old(countVec[v][..]);
      }
    }

    // A stored element is always found.
    method MayExist(e: nat) returns (r: bool)
      requires Valid() && e < TWO32
      ensures e in elements ==> r
      ensures built ==> (r <==> forall v | 0 <= v < |vSize| :: Tally(elements, hash[v], hash[v](e), TWO32) > 0)
    {
      if !built {
        return true;
      }
      if e in elements {
        forall v | 0 <= v < |vSize|
          ensures Tally(elements, hash[v], hash[v](e), TWO32) > 0
        {
          TallyMember(elements, e, hash[v], TWO32);
        }
      }
      for i := 0 to |vSize|
        invariant forall v | 0 <= v < i :: Tally(elements, hash[v], hash[v](e), TWO32) > 0
      {
        assert Counts(i, elements);
        var idx := hash[i](e);
        if countVec[i][idx] == 0 {
          return false;
        }
      }
      return true;
    }

    // The same construction, which is what makes two filters comparable.
    ghost predicate Compatible(other: BloomFilter) {
      && other.vSize == vSize && |other.hash| == |hash|
      && forall v, e: nat | 0 <= v < |hash| :: other.hash[v](e) == hash[v](e)
    }

    // The counters of the other filter are tallies by our own hashes, too.
    lemma AlikeCounts(other: BloomFilter, v: nat, m: multiset<nat>)
      requires Shape() && other.Shape() && Compatible(other) && v < |vSize| && other.Counts(v, m)
      ensures forall x: nat | x < vSize[v] :: other.countVec[v][x] == Tally(m, hash[v], x, TWO32)
    {
      forall x: nat | x < vSize[v]
        ensures other.countVec[v][x] == Tally(m, hash[v], x, TWO32)
      {
        TallyAlike(m, other.hash[v], hash[v], x, TWO32);
      }
    }

    // Vector v has a slot that both filters use.
    ghost predicate Meets(v: nat, a: multiset<nat>, b: multiset<nat>)
      requires Shape() && v < |vSize|
    {
      exists x: nat :: x < vSize[v] && Tally(a, hash[v], x, TWO32) > 0 && Tally(b, hash[v], x, TWO32) > 0
    }

    // A shared element is always noticed.
    method MayIntersect(other: BloomFilter) returns (r: bool)
      requires Valid() && other.Valid() && Compatible(other)
      ensures built && other.built ==> (r <==> forall v | 0 <= v < |vSize| :: Meets(v, elements, other.elements))
      ensures (exists e :: e in elements && e in other.elements) ==> r
    {
      if !built || !other.built {
        return true;
      }
      if e :| e in elements && e in other.elements {
        SharedMeets(e, other);
      }
      for v := 0 to |vSize|
        invariant forall u | 0 <= u < v :: Meets(u, elements, other.elements)
      {
        var vectorInt := VectorMeets(v, other);
        if !vectorInt {
          return false;
        }
      }
      return true;
    }

    lemma SharedMeets(e: nat, other: BloomFilter)
      requires Valid() && other.Valid() && Compatible(other) && e in elements && e in other.elements
      ensures forall v | 0 <= v < |vSize| :: Meets(v, elements, other.elements)
    {
      forall v | 0 <= v < |vSize|
        ensures Meets(v, elements, other.elements)
      {
        TallyMember(elements, e, hash[v], TWO32);
        TallyMember(other.elements, e, hash[v], TWO32);
        assert hash[v](e) < vSize[v];
      }
    }

    method VectorMeets(v: nat, other: BloomFilter) returns (r: bool)
      requires Valid() && other.Valid() && Compatible(other) && v < |vSize| && built && other.built
      ensures r <==> Meets(v, elements, other.elements)
    {
      assert Counts(v, elements) && other.Counts(v, other.elements);
      AlikeCounts(other, v, other.elements);
      for e := 0 to vSize[v]
        invariant forall x: nat | x < e :: countVec[v][x] <= 0 || other.countVec[v][x] <= 0
      {
        if countVec[v][e] > 0 && other.countVec[v][e] > 0 {
          return true;
        }
      }
      return false;
    }

    // Another filter, with counters of its own.
    ghost predicate Separate(other: BloomFilter) {
      && other != this && nonZeroCount != other.nonZeroCount
      && (forall v | 0 <= v < |countVec| :: countVec[v] != other.nonZeroCount)
      && (forall v | 0 <= v < |other.countVec| :: nonZeroCount != other.countVec[v])
      && forall u, v | 0 <= u < |countVec| && 0 <= v < |other.countVec| :: countVec[u] != other.countVec[v]
    }

    // The filter of the elements of both.
    method MergeWith(other: BloomFilter)
      requires Valid() && other.Valid() && Compatible(other) && (other == this || Separate(other))
      modifies `elements, countVec, nonZeroCount
      ensures Valid() && other.Valid()
      ensures elements == old(elements) + if built && other.built then old(other.elements) else multiset{}
    {
      if !built || !other.built {
        return;
      }
      hide Tally, NonZero, Counts;
      ghost var m := elements + other.elements;
      for v := 0 to |vSize|
        invariant elements == old(elements) && forall u | 0 <= u < v :: Counts(u, m)
        invariant forall u | v <= u < |vSize| :: Counts(u, elements)
        invariant forall u | v <= u < |vSize| :: other.Counts(u, other.elements)
        invariant other != this ==> forall u | 0 <= u < v :: other.Counts(u, other.elements)
      {
        MergeVector(v, other, elements);
      }
      elements := m;
    }

    method MergeVector(v: nat, other: BloomFilter, ghost m: multiset<nat>)
      requires Shape() && other.Shape() && Compatible(other) && (other == this || Separate(other)) && v < |vSize|
      requires Counts(v, m) && other.Counts(v, other.elements)
      modifies countVec[v], nonZeroCount
      ensures Counts(v, m + other.elements)
      ensures other != this ==> forall u | 0 <= u < |vSize| && old(other.Counts(u, other.elements)) ::
          other.Counts(u, other.elements)
      ensures forall u, k | 0 <= u < |vSize| && u != v && old(Counts(u, k)) :: Counts(u, k)
    {
      Apart(v);
      AlikeCounts(other, v, other.elements);
      var a, b := countVec[v], other.countVec[v];
      ghost var was, arg := a[..], b[..];
      nonZeroCount[v] := 0;
      for e := 0 to vSize[v]
        invariant nonZeroCount[v] == NonZero(a[..e])
        invariant forall x: nat | x < vSize[v] :: a[x] == if x < e then was[x] + arg[x] else was[x]
        invariant forall x: nat | e <= x < vSize[v] :: b[x] == arg[x]
        invariant forall u | 0 <= u < |vSize| && u != v :: nonZeroCount[u] == old(nonZeroCount[u])
      {
        a[e] := a[e] + b[e];
        assert a[..e + 1][..e] == a[..e];
        if a[e] != 0 {
          nonZeroCount[v] := nonZeroCount[v] + 1;
        }
      }
      assert a[..vSize[v]] == a[..];
      forall x: nat | x < vSize[v]
        ensures a[x] == Tally(m + other.elements, hash[v], x, TWO32)
      {
        TallySum(m, other.elements, hash[v], x, TWO32);
      }
      forall u, k | 0 <= u < |vSize| && u != v && old(Counts(u, k))
        ensures Counts(u, k)
      {
        assert countVec[u][..] == old(countVec[u][..]);
      }
    }

    // Taking out a filter whose elements are all in.
    method Subtract(other: BloomFilter)
      requires Valid() && other.Valid() && Compatible(other) && (other == this || Separate(other))
      requires built && other.built ==> other.elements <= elements
      modifies `elements, countVec, nonZeroCount
      ensures Valid() && other.Valid()
      ensures elements == old(elements) - if built && other.built then old(other.elements) else multiset{}
    {
      if !built || !other.built {
        return;
      }
      hide Tally, NonZero, Counts;
      ghost var m := elements - other.elements;
      for v := 0 to |vSize|
        invariant elements == old(elements) && forall u | 0 <= u < v :: Counts(u, m)
        invariant forall u | v <= u < |vSize| :: Counts(u, elements)
        invariant forall u | v <= u < |vSize| :: other.Counts(u, other.elements)
        invariant other != this ==> forall u | 0 <= u < v :: other.Counts(u, other.elements)
      {
        SubtractVector(v, other, elements);
      }
      elements := m;
    }

    method SubtractVector(v: nat, other: BloomFilter, ghost m: multiset<nat>)
      requires Shape() && other.Shape() && Compatible(other) && (other == this || Separate(other)) && v < |vSize|
      requires Counts(v, m) && other.Counts(v, other.elements) && other.elements <= m
      modifies countVec[v], nonZeroCount
      ensures Counts(v, m - other.elements)
      ensures other != this ==> forall u | 0 <= u < |vSize| && old(other.Counts(u, other.elements)) ::
          other.Counts(u, other.elements)
      ensures forall u, k | 0 <= u < |vSize| && u != v && old(Counts(u, k)) :: Counts(u, k)
    {
      Apart(v);
      AlikeCounts(other, v, other.elements);
      var a, b := countVec[v], other.countVec[v];
      ghost var was, arg := a[..], b[..];
      nonZeroCount[v] := 0;
      for e := 0 to vSize[v]
        invariant nonZeroCount[v] == NonZero(a[..e])
        invariant forall x: nat | x < vSize[v] :: a[x] == if x < e then was[x] - arg[x] else was[x]
        invariant forall x: nat | e <= x < vSize[v] :: b[x] == arg[x]
        invariant forall u | 0 <= u < |vSize| && u != v :: nonZeroCount[u] == old(nonZeroCount[u])
      {
        a[e] := a[e] - b[e];
        assert a[..e + 1][..e] == a[..e];
        if a[e] != 0 {
          nonZeroCount[v] := nonZeroCount[v] + 1;
        }
      }
      assert a[..vSize[v]] == a[..];
      forall x: nat | x < vSize[v]
        ensures a[x] == Tally(m - other.elements, hash[v], x, TWO32)
      {
        TallyDifference(m, other.elements, hash[v], x, TWO32);
      }
      forall u, k | 0 <= u < |vSize| && u != v && old(Counts(u, k))
        ensures Counts(u, k)
      {
        assert countVec[u][..] == old(countVec[u][..]);
      }
    }

    // Inclusion is always noticed.
    method IsSubsetOf(other: BloomFilter) returns (r: bool)
      requires Valid() && other.Valid() && Compatible(other)
      ensures built && other.built && elements <= other.elements ==> r
      ensures built && other.built ==> (r <==> forall v | 0 <= v < |vSize| :: Below(v, elements, other.elements))
      ensures !built || !other.built ==> r
    {
      if !built || !other.built {
        return true;
      }
      if elements <= other.elements {
        InclusionIsBelow(other);
      }
      for v := 0 to |vSize|
        invariant forall u | 0 <= u < v :: Below(u, elements, other.elements)
      {
        var below := VectorBelow(v, other);
        if !below {
          return false;
        }
      }
      return true;
    }

    ghost predicate Below(v: nat, a: multiset<nat>, b: multiset<nat>)
      requires Shape() && v < |vSize|
    {
      forall x: nat | x < vSize[v] :: Tally(a, hash[v], x, TWO32) <= Tally(b, hash[v], x, TWO32)
    }

    lemma InclusionIsBelow(other: BloomFilter)
      requires Shape() && elements <= other.elements
      ensures forall v | 0 <= v < |vSize| :: Below(v, elements, other.elements)
    {
      forall v, x: nat | 0 <= v < |vSize| && x < vSize[v]
        ensures Tally(elements, hash[v], x, TWO32) <= Tally(other.elements, hash[v], x, TWO32)
      {
        TallyDifference(other.elements, elements, hash[v], x, TWO32);
      }
    }

    method VectorBelow(v: nat, other: BloomFilter) returns (r: bool)
      requires Valid() && other.Valid() && Compatible(other) && v < |vSize| && built && other.built
      ensures r <==> Below(v, elements, other.elements)
    {
      assert Counts(v, elements) && other.Counts(v, other.elements);
      AlikeCounts(other, v, other.elements);
      for e := 0 to vSize[v]
        invariant forall x: nat | x < e :: countVec[v][x] <= other.countVec[v][x]
      {
        if countVec[v][e] > other.countVec[v][e] {
          return false;
        }
      }
      return true;
    }

    constructor (bits: seq<nat>, size: seq<nat>)
      requires |bits| == |size| && Offset(bits, |bits|) <= 32
      requires forall i | 0 <= i < |bits| :: 0 < bits[i] < 32 && 0 < size[i]
      ensures Valid() && built && elements == multiset{} && vSize == size
      ensures fresh(nonZeroCount) && forall v | 0 <= v < |countVec| :: fresh(countVec[v])
      ensures forall i, val: nat | 0 <= i < |bits| :: hash[i](val) == Low(Shr(val, Offset(bits, i)), bits[i]) % size[i]
    {
      var masks, shifts := InitMasks(bits);
      var h := MakeHashes(bits, size, masks, shifts);
      var vectors := MakeVectors(size);
      var zeros := new int[|size|](_ => 0);
      built, vSize, hash, countVec, nonZeroCount, elements := true, size, h, vectors, zeros, multiset{};
      new;
      StartsEmpty();
    }

    lemma StartsEmpty()
      requires Shape() && elements == multiset{}
      requires forall v | 0 <= v < |vSize| ::
          nonZeroCount[v] == 0 && forall x | 0 <= x < vSize[v] :: countVec[v][x] == 0
      ensures Valid()
    {
      forall v | 0 <= v < |vSize|
        ensures Counts(v, elements)
      {
        NonZeroOfZeros(countVec[v][..]);
        forall x: nat | x < vSize[v]
          ensures countVec[v][x] == Tally(elements, hash[v], x, TWO32)
        {
          TallyNone(hash[v], x, TWO32);
        }
      }
    }
  }

  // Filters built alike are compatible and share no counter.
  method Build(bits: seq<nat>, size: seq<nat>, es: seq<nat>) returns (f: BloomFilter)
    requires |bits| == |size| && Offset(bits, |bits|) <= 32 && forall e | e in es :: e < TWO32
    requires forall i | 0 <= i < |bits| :: 0 < bits[i] < 32 && 0 < size[i]
    ensures f.Valid() && f.built && f.elements == multiset(es) && f.vSize == size
    ensures fresh(f) && fresh(f.nonZeroCount) && forall v | 0 <= v < |f.countVec| :: fresh(f.countVec[v])
    ensures forall i, val: nat | 0 <= i < |bits| :: f.hash[i](val) == Low(Shr(val, Offset(bits, i)), bits[i]) % size[i]
  {
    f := new BloomFilter(bits, size);
    for i := 0 to |es|
      invariant f.Valid() && f.elements == multiset(es[..i])
    {
      assert es[i] in es && es[..i + 1] == es[..i] + [es[i]];
      f.Insert(es[i]);
    }
    assert es[..|es|] == es;
  }

  // Two sets of addresses, merged and taken apart again.
  method MergeAndPart(bits: seq<nat>, size: seq<nat>, es: seq<nat>, ds: seq<nat>)
      returns (f: BloomFilter, d: BloomFilter)
    requires |bits| == |size| && Offset(bits, |bits|) <= 32
    requires (forall e | e in es :: e < TWO32) && forall e | e in ds :: e < TWO32
    requires forall i | 0 <= i < |bits| :: 0 < bits[i] < 32 && 0 < size[i]
    ensures f.Valid() && d.Valid() && f.Compatible(d) && f.elements == multiset(es) && d.elements == multiset(ds)
  {
    hide Tally, NonZero, Low, Shr, Offset;
    f := Build(bits, size, es);
    d := Build(bits, size, ds);
    f.MergeWith(d);
    var within := d.IsSubsetOf(f);
    assert within;
    f.Subtract(d);
  }

  method MakeHashes(bits: seq<nat>, size: seq<nat>, masks: seq<nat>, shifts: seq<nat>) returns (h: seq<nat -> nat>)
    requires |bits| == |size| == |masks| == |shifts| && forall i | 0 <= i < |size| :: 0 < size[i]
    requires forall i | 0 <= i < |bits| :: MaskOk(bits, i, masks[i], shifts[i])
    ensures |h| == |size| && forall i, val: nat | 0 <= i < |size| :: h[i](val) < size[i]
    ensures forall i, val: nat | 0 <= i < |size| :: h[i](val) == Low(Shr(val, Offset(bits, i)), bits[i]) % size[i]
  {
    h := [];
    for i := 0 to |size|
      invariant |h| == i && forall k, val: nat | 0 <= k < i :: h[k](val) == GetIndex(val, masks[k], shifts[k], size[k])
    {
      var mask, shift, n: nat := masks[i], shifts[i], size[i];
      h := h + [(val: nat) requires 0 < n => GetIndex(val, mask, shift, n)];
    }
    forall i, val: nat | 0 <= i < |size|
      ensures h[i](val) == Low(Shr(val, Offset(bits, i)), bits[i]) % size[i]
    {
      assert MaskOk(bits, i, masks[i], shifts[i]);
      ChunkBits(val, masks[i], shifts[i], bits[i]);
    }
  }

  method MakeVectors(size: seq<nat>) returns (s: seq<array<int>>)
    ensures |s| == |size| && forall v | 0 <= v < |s| :: s[v].Length == size[v] && fresh(s[v])
    ensures forall u, v | 0 <= u < v < |s| :: s[u] != s[v]
    ensures forall v | 0 <= v < |s| :: forall x | 0 <= x < size[v] :: s[v][x] == 0
  {
    s := [];
    for i := 0 to |size|
      invariant |s| == i && forall v | 0 <= v < |s| :: s[v].Length == size[v] && fresh(s[v])
      invariant forall u, v | 0 <= u < v < |s| :: s[u] != s[v]
      invariant forall v | 0 <= v < |s| :: forall x | 0 <= x < size[v] :: s[v][x] == 0
    {
      var a := new int[size[i]](_ => 0);
      s := s + [a];
    }
  }

  lemma {:induction false} NonZeroPositive(s: seq<int>, i: nat)
    requires i < |s| && s[i] != 0
    ensures NonZero(s) > 0
  {
    var n := |s| - 1;
    if i < n {
      NonZeroPositive(s[..n], i);
    }
  }
}
