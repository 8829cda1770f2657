/**
 The arithmetic that lays a cache out: rounding to powers of two, and the window of lines that
 a tag selects.
 */
module CacheGeometry {
  import opened Bits

  // How many bits it takes to write n.
  function BitLength(n: nat): (w: nat)
    ensures n < Pow2(w) && (0 < n ==> 0 < w && Pow2(w - 1) <= n)
  {
    if n == 0 then 0 else 1 + BitLength(n / 2)
  }

  lemma {:induction false} Pow2Grows(a: nat, b: nat)
    requires a <= b
    ensures Pow2(a) <= Pow2(b)
    ensures a < b ==> Pow2(a) < Pow2(b)
    decreases b
  {
    if a < b {
      Pow2Grows(a, b - 1);
    }
  }

  lemma {:induction false} TopBit(n: nat)
    requires 0 < n
    ensures Bit(n, BitLength(n) - 1)
  {
    if n / 2 > 0 {
      TopBit(n / 2);
    }
  }

  // Some bit of n at or within s places above j is set.
  ghost predicate SomeBit(n: nat, j: nat, s: nat) {
    exists k: nat | j <= k < j + s :: Bit(n, k)
  }

  ghost predicate IsSmear(n: nat, s: nat, x: nat) {
    forall j: nat :: Bit(x, j) <==> SomeBit(n, j, s)
  }

  lemma SmearTwice(n: nat, s: nat, x: nat)
    requires IsSmear(n, s, x)
    ensures IsSmear(n, 2 * s, Or(x, Shr(x, s)))
  {
    var y := Or(x, Shr(x, s));
    forall j: nat
      ensures Bit(y, j) <==> SomeBit(n, j, 2 * s)
    {
      BitOr(x, Shr(x, s), j);
      BitShr(x, s, j);
      assert SomeBit(n, j, 2 * s) <==> SomeBit(n, j, s) || SomeBit(n, j + s, s);
    }
  }

  // Once every bit has reached the bottom, the word is a power of two less one.
  lemma SmearIsMask(n: nat, s: nat, x: nat)
    requires IsSmear(n, s, x) && BitLength(n) <= s
    ensures x == Pow2(BitLength(n)) - 1
  {
    var w := BitLength(n);
    forall j: nat
      ensures Bit(x, j) <==> Bit(Pow2(w) - 1, j)
    {
      MaskBit(w, j);
      assert Bit(x, j) <==> SomeBit(n, j, s);
      if j < w {
        TopBit(n);
      } else {
        forall k: nat | j <= k
          ensures !Bit(n, k)
        {
          HighBitsClear(n, w, k);
        }
      }
    }
    SameBits(x, Pow2(w) - 1);
  }

  lemma SmearStart(n: nat)
    ensures IsSmear(n, 1, n)
  {
    forall j: nat
      ensures Bit(n, j) <==> SomeBit(n, j, 1)
    {
    }
  }

  lemma BitLengthOf32(n: nat)
    requires n < TWO32
    ensures BitLength(n) <= 32
  {
    TwoTo32();
    if 32 < BitLength(n) {
      Pow2Grows(32, BitLength(n) - 1);
    }
  }

  // What the branchless code computes.  Beyond 2^31 and for 0 the result wraps to 0.
  function RoundUp(x: nat): nat {
    if 1 <= x <= TWO32 / 2 then Pow2(BitLength(x - 1)) else 0
  }

  // The least power of two that is not below x.
  lemma RoundUpIsLeast(x: nat)
    requires 1 <= x <= TWO32 / 2
    ensures IsPow2(RoundUp(x)) && x <= RoundUp(x) < 2 * x
    ensures forall p | IsPow2(p) && x <= p :: RoundUp(x) <= p
  {
    var w := BitLength(x - 1);
    Pow2IsPow2(w);
    forall p | IsPow2(p) && x <= p
      ensures Pow2(w) <= p
    {
      var k := IsPow2Exponent(p);
      if k < w {
        Pow2Grows(k, w - 1);
      } else {
        Pow2Grows(w, k);
      }
    }
  }

  method RoundUpPower2(n: nat) returns (r: nat)
    requires n < TWO32
    ensures r == RoundUp(n)
  {
    var x := if n == 0 then TWO32 - 1 else n - 1;
    ghost var start := x;
    SmearStart(x);
    SmearTwice(start, 1, x);
    x := Or(x, Shr(x, 1));
    SmearTwice(start, 2, x);
    x := Or(x, Shr(x, 2));
    SmearTwice(start, 4, x);
    x := Or(x, Shr(x, 4));
    SmearTwice(start, 8, x);
    x := Or(x, Shr(x, 8));
    SmearTwice(start, 16, x);
    x := Or(x, Shr(x, 16));
    BitLengthOf32(start);
    SmearIsMask(start, 32, x);
    WrappedIncrement(n, start, x);
    r := (x + 1) % TWO32;
  }

  lemma WrappedIncrement(n: nat, start: nat, x: nat)
    requires n < TWO32 && start == (if n == 0 then TWO32 - 1 else n - 1) && x == Pow2(BitLength(start)) - 1
    ensures (x + 1) % TWO32 == RoundUp(n)
  {
    hide Pow2, BitLength;
    var w := BitLength(start);
    BitLengthOf32(start);
    TwoTo32();
    HalfOf32();
    if w == 32 {
      LongWord(start);
      assert n == 0 || TWO32 / 2 < n;
      assert x + 1 == TWO32;
    } else {
      Pow2Grows(w, 31);
      assert 1 <= n <= TWO32 / 2;
      assert x + 1 == RoundUp(n) < TWO32;
    }
  }

  lemma LongWord(n: nat)
    requires BitLength(n) == 32
    ensures Pow2(31) <= n
  {
  }

  lemma HalfOf32()
    ensures Pow2(31) == TWO32 / 2
  {
    TwoTo32();
    assert Pow2(32) == 2 * Pow2(31);
  }

  method Log2i(n: nat) returns (i: nat)
    requires n < TWO32
    ensures 1 <= n <= TWO32 / 2 ==> Pow2(i) == RoundUp(n)
    ensures !(1 <= n <= TWO32 / 2) ==> i == 0
  {
    if n == 1 {
      return 0;
    }
    var p := RoundUpPower2(n);
    var m := 1;
    i := 0;
    while m < p
      invariant m == Pow2(i) && (i == 0 || m <= p)
      decreases p - m
    {
      i := i + 1;
      m := (2 * m) % TWO32;
      assert m == Pow2(i) && m <= p by {
        NextPower(n, p, i);
      }
    }
  }

  lemma NextPower(n: nat, p: nat, i: nat)
    requires p == RoundUp(n) && 0 < i && Pow2(i - 1) < p
    ensures Pow2(i) <= p <= TWO32 / 2
  {
    TwoTo32();
    assert Pow2(32) == 2 * Pow2(31);
    var w := BitLength(n - 1);
    if w < i {
      Pow2Grows(w, i - 1);
    }
    Pow2Grows(i, w);
    if 31 < w {
      Pow2Grows(31, w - 1);
    } else {
      Pow2Grows(w, 31);
    }
  }

  lemma {:induction false} ShlIsTimes(x: nat, k: nat)
    ensures Shl(x, k) == x * Pow2(k)
  {
    if k > 0 {
      ShlIsTimes(x, k - 1);
    }
  }

  // The sizes a cache derives from its capacity s, associativity a and line size b.
  datatype Geometry = Geometry(assoc: nat, log2Assoc: nat, sets: nat, maskSets: nat, log2Sets: nat, numLines: nat,
      xorIndex: bool)
  {
    predicate Valid() {
      && 1 <= assoc <= Pow2(log2Assoc) < 2 * assoc
      && sets == Pow2(log2Sets) && maskSets == sets - 1 && 1 <= numLines
    }

    function Hash(tag: nat): nat {
      if xorIndex then Xor(Xor(tag, Shr(tag, 5)), Shr(tag, log2Sets)) else tag
    }

    // calcIndex4Tag: the first line of the set of a tag.
    function Index(tag: nat): nat {
      Shl(And(Hash(tag), maskSets), log2Assoc)
    }
  }

  method MakeGeometry(s: nat, a: nat, b: nat, xr: bool) returns (g: Geometry)
    requires 1 <= a && 1 <= b && s < TWO32 / 2 && a <= s / b
    ensures g.Valid() && g.assoc == a && g.numLines == s / b && g.xorIndex == xr
    ensures g.sets * Pow2(g.log2Assoc) == RoundUp(s / b) && Pow2(g.log2Assoc) == RoundUp(a)
  {
    QuotientBelow(s, b);
    var sets := NumSets(a, s / b);
    var la := Log2i(a);
    var ls := Log2i(sets);
    var lines := NumLines(s, a, b);
    RoundUpIsLeast(a);
    g := Geometry(a, la, sets, sets - 1, ls, lines, xr);
  }

  datatype Created = TooSmall | Created(g: Geometry)

  // The sizes that create accepts; TooSmall stands for its configuration error.
  method Create(s: nat, a: nat, b: nat, xr: bool) returns (r: Created)
    requires 1 <= a && 1 <= b && s < TWO32 / 2
    ensures r == TooSmall <==> s / b < a
    ensures r != TooSmall ==>
              && r.g.Valid() && r.g.assoc == a && r.g.numLines == s / b && r.g.xorIndex == xr
              && r.g.sets * Pow2(r.g.log2Assoc) == RoundUp(s / b) && Pow2(r.g.log2Assoc) == RoundUp(a)
              && (HoldsLastSet(r.g) <==> RoundUp(s / b) - s / b <= RoundUp(a) - a)
  {
    if s / b < a {
      return TooSmall;
    }
    var g := MakeGeometry(s, a, b, xr);
    RoomForLastSet(g, s / b);
    r := Created(g);
  }

  // There is room for the last set exactly when rounding up adds no more to the number of lines
  // than to the associativity.
  lemma RoomForLastSet(g: Geometry, lines: nat)
    requires g.Valid() && g.numLines == lines && Pow2(g.log2Assoc) == RoundUp(g.assoc)
    requires g.sets * Pow2(g.log2Assoc) == RoundUp(lines)
    ensures HoldsLastSet(g) <==> RoundUp(lines) - lines <= RoundUp(g.assoc) - g.assoc
  {
    Successor(g.sets - 1, Pow2(g.log2Assoc));
  }

  lemma RoundUpSmall()
    ensures RoundUp(1) == 1 && RoundUp(2) == 2 && RoundUp(3) == 4 && RoundUp(6) == 8
  {
    assert BitLength(1) == 1 && BitLength(2) == 2 && BitLength(5) == 3;
    assert Pow2(0) == 1 && Pow2(1) == 2 && Pow2(2) == 4 && Pow2(3) == 8;
  }

  ghost predicate Overruns(g: Geometry, tag: nat) {
    g.Index(tag) + g.assoc > g.numLines
  }

  lemma SomeOverrun(g: Geometry) returns (tag: nat)
    requires g.Valid() && !HoldsLastSet(g)
    ensures Overruns(g, tag)
  {
    WindowsInsideExactly(g);
    tag :| g.Index(tag) + g.assoc > g.numLines;
  }

  // The geometry of a cache that has no room for its last set, with a tag that selects it.
  method Unfit(s: nat, a: nat, b: nat, xr: bool) returns (g: Geometry, ghost tag: nat)
    requires 1 <= b && 1 <= a <= s / b && s < TWO32 / 2 && RoundUp(s / b) - s / b > RoundUp(a) - a
    ensures g.assoc == a && g.numLines == s / b && g.xorIndex == xr && Overruns(g, tag)
  {
    var r := Create(s, a, b, xr);
    g := r.g;
    tag := SomeOverrun(g);
  }

  // Three lines direct-mapped, and six in sets of two.
  method UnfitExamples() returns (direct: Geometry, twoWay: Geometry, ghost t: nat, ghost u: nat)
    ensures direct.assoc == 1 && direct.numLines == 3 && Overruns(direct, t)
    ensures twoWay.assoc == 2 && twoWay.numLines == 6 && Overruns(twoWay, u)
  {
    hide Overruns, RoundUp;
    RoundUpSmall();
    direct, t := Unfit(3 * 64, 1, 64, false);
    twoWay, u := Unfit(6 * 64, 2, 64, false);
  }

  method NumSets(a: nat, lines: nat) returns (sets: nat)
    requires 1 <= a <= lines <= TWO32 / 2
    ensures sets * RoundUp(a) == RoundUp(lines)
    ensures 1 <= sets <= TWO32 / 2 && RoundUp(sets) == sets
  {
    var rl := RoundUpPower2(lines);
    var ra := RoundUpPower2(a);
    ghost var k := Quotient(a, lines);
    RoundUpOfPower(k);
    sets := rl / ra;
  }

  // The source scales by roundUpPower2(a) / a, which is 1 for every a: rounding never doubles.
  method NumLines(s: nat, a: nat, b: nat) returns (lines: nat)
    requires 1 <= a <= TWO32 / 2 && 1 <= b
    ensures lines == s / b
  {
    var ra := RoundUpPower2(a);
    RoundUpIsLeast(a);
    OneAndABit(ra, a);
    RoundUpOfPower(0);
    var scale := RoundUpPower2(ra / a);
    lines := scale * s / b;
  }

  lemma QuotientBelow(s: nat, b: nat)
    requires 1 <= b
    ensures s / b <= s
  {
    TimesAtLeast(s / b, b);
  }

  lemma {:induction false} TimesAtLeast(q: nat, k: nat)
    requires 1 <= k
    ensures q <= q * k
  {
    if q > 0 {
      TimesAtLeast(q - 1, k);
      Successor(q - 1, k);
    }
  }

  lemma OneAndABit(r: nat, a: nat)
    requires 1 <= a <= r < 2 * a
    ensures r / a == 1
  {
    var q := r / a;
    assert r == q * a + r % a;
    assert q >= 2 ==> q * a >= 2 * a;
    assert q <= 0 ==> q * a <= 0;
  }

  // Rounding keeps the order, so the set count is a power of two and divides exactly.
  lemma Quotient(a: nat, lines: nat) returns (k: nat)
    requires 1 <= a <= lines <= TWO32 / 2
    ensures 1 <= RoundUp(a) <= RoundUp(lines) <= TWO32 / 2
    ensures RoundUp(lines) / RoundUp(a) == Pow2(k) <= TWO32 / 2 && Pow2(k) * RoundUp(a) == RoundUp(lines)
  {
    var wa, wl := BitLength(a - 1), BitLength(lines - 1);
    Ordered(a, lines);
    assert wa <= wl by {
      if wl < wa {
        Pow2Grows(wl, wa - 1);
      }
    }
    k := wl - wa;
    PowerQuotient(wl, wa);
    TopPower(lines);
    Pow2Grows(k, wl);
  }

  lemma Ordered(a: nat, b: nat)
    requires 1 <= a <= b <= TWO32 / 2
    ensures RoundUp(a) <= RoundUp(b)
  {
    var wa, wb := BitLength(a - 1), BitLength(b - 1);
    if wb < wa {
      Pow2Grows(wb, wa - 1);
    }
    Pow2Grows(wa, wb);
  }

  lemma PowerQuotient(x: nat, y: nat)
    requires y <= x
    ensures Pow2(x) / Pow2(y) == Pow2(x - y) && Pow2(x - y) * Pow2(y) == Pow2(x)
  {
    Pow2Sum(y, x - y);
    ExactQuotient(Pow2(x), Pow2(y), Pow2(x - y));
  }

  lemma ExactQuotient(x: nat, y: nat, q: nat)
    requires 1 <= y && x == y * q
    ensures x / y == q
  {
    var d := x / y - q;
    assert x == (x / y) * y + x % y;
    assert (x / y) * y - q * y == d * y;
    assert d >= 1 ==> d * y >= y;
    assert d <= -1 ==> d * y <= 0 - y;
  }

  lemma TopPower(x: nat)
    requires 1 <= x <= TWO32 / 2
    ensures RoundUp(x) <= TWO32 / 2
  {
    TwoTo32();
    assert Pow2(32) == 2 * Pow2(31);
    Pow2IsPow2(31);
    RoundUpIsLeast(x);
  }

  lemma RoundUpOfPower(k: nat)
    requires Pow2(k) <= TWO32 / 2
    ensures RoundUp(Pow2(k)) == Pow2(k)
  {
    Pow2IsPow2(k);
    RoundUpIsLeast(Pow2(k));
  }

  lemma IndexIsMultiple(g: Geometry, tag: nat)
    requires g.Valid()
    ensures And(g.Hash(tag), g.maskSets) < g.sets
    ensures g.Index(tag) == And(g.Hash(tag), g.maskSets) * Pow2(g.log2Assoc)
  {
    Pow2IsPow2(g.log2Sets);
    AndBelow(g.Hash(tag), g.sets);
    ShlIsTimes(And(g.Hash(tag), g.maskSets), g.log2Assoc);
  }

  // Bit j of the set number with index hashing, among 2^w sets.
  predicate HashBit(t: nat, j: nat, w: nat) { (Bit(t, j) != Bit(t, j + 5)) != Bit(t, j + w) }

  ghost predicate IsHash(n: nat, t: nat, w: nat) {
    forall j: nat :: Bit(n, j) <==> j < w && HashBit(t, j, w)
  }

  // The set of a tag: its remainder by the number of sets, or with hashing the number with these bits.
  lemma SetOf(g: Geometry, t: nat) returns (n: nat)
    requires g.Valid()
    ensures n < g.sets && g.Index(t) == n * Pow2(g.log2Assoc)
    ensures if g.xorIndex then IsHash(n, t, g.log2Sets) else n == t % g.sets
  {
    n := And(g.Hash(t), g.maskSets);
    IndexIsMultiple(g, t);
    if g.xorIndex {
      forall j: nat
        ensures Bit(n, j) <==> j < g.log2Sets && HashBit(t, j, g.log2Sets)
      {
        BitAnd(g.Hash(t), g.maskSets, j);
        MaskBit(g.log2Sets, j);
        HashedBit(g, t, j);
      }
    } else {
      Pow2IsPow2(g.log2Sets);
      AndIsMod(t, g.sets);
    }
  }

  // Two tags share a set among 2^w sets.
  ghost predicate SameSet(t: nat, u: nat, w: nat, xr: bool) {
    if xr then forall j | 0 <= j < w :: HashBit(t, j, w) == HashBit(u, j, w) else t % Pow2(w) == u % Pow2(w)
  }

  lemma SharesSet(g: Geometry, t: nat, u: nat)
    requires g.Valid()
    ensures g.Index(t) == g.Index(u) <==> SameSet(t, u, g.log2Sets, g.xorIndex)
  {
    var n := SetOf(g, t);
    var m := SetOf(g, u);
    if n < m {
      Multiples(n, m, Pow2(g.log2Assoc));
    } else if m < n {
      Multiples(m, n, Pow2(g.log2Assoc));
    }
    assert g.Index(t) == g.Index(u) <==> n == m;
    if g.xorIndex {
      SameHash(n, m, t, u, g.log2Sets);
    }
  }

  lemma SameHash(n: nat, m: nat, t: nat, u: nat, w: nat)
    requires IsHash(n, t, w) && IsHash(m, u, w)
    ensures n == m <==> forall j | 0 <= j < w :: HashBit(t, j, w) == HashBit(u, j, w)
  {
    hide HashBit;
    if forall j | 0 <= j < w :: HashBit(t, j, w) == HashBit(u, j, w) {
      SameBits(n, m);
    } else {
      var j :| 0 <= j < w && HashBit(t, j, w) != HashBit(u, j, w);
      assert Bit(n, j) != Bit(m, j);
    }
  }

  // Windows of different sets never share a line, whatever the indexing.
  lemma WindowsDisjoint(g: Geometry, t: nat, u: nat)
    requires g.Valid() && g.Index(t) != g.Index(u)
    ensures g.Index(t) + g.assoc <= g.Index(u) || g.Index(u) + g.assoc <= g.Index(t)
  {
    IndexIsMultiple(g, t);
    IndexIsMultiple(g, u);
    var i, j := And(g.Hash(t), g.maskSets), And(g.Hash(u), g.maskSets);
    if i < j {
      Multiples(i, j, Pow2(g.log2Assoc));
    } else {
      Multiples(j, i, Pow2(g.log2Assoc));
    }
  }

  lemma {:induction false} Multiples(i: nat, j: nat, k: nat)
    requires i < j
    ensures i * k + k <= j * k
    decreases j
  {
    Successor(j - 1, k);
    if i < j - 1 {
      Multiples(i, j - 1, k);
    }
  }

  lemma Successor(j: nat, k: nat)
    ensures (j + 1) * k == j * k + k
  {
  }

  // Every window ends inside the array exactly when the array has room for the last set.
  predicate HoldsLastSet(g: Geometry)
    requires g.Valid()
  {
    (g.sets - 1) * Pow2(g.log2Assoc) + g.assoc <= g.numLines
  }

  lemma WindowsInside(g: Geometry, tag: nat)
    requires g.Valid() && HoldsLastSet(g)
    ensures g.Index(tag) + g.assoc <= g.numLines
  {
    IndexIsMultiple(g, tag);
    var row := And(g.Hash(tag), g.maskSets);
    if row < g.sets - 1 {
      Multiples(row, g.sets - 1, Pow2(g.log2Assoc));
    }
  }

  // A tag below 2^w that tag ^ (tag >> 5) turns into all ones: five ones, five zeros, and so on
  // from the top.
  function AllOnesTag(w: nat): nat {
    if w == 0 then 0 else 2 * AllOnesTag(w - 1) + if ((w - 1) / 5) % 2 == 0 then 1 else 0
  }

  lemma {:induction false} AllOnesTagBit(w: nat, j: nat)
    ensures Bit(AllOnesTag(w), j) <==> j < w && ((w - 1 - j) / 5) % 2 == 0
    decreases j
  {
    if w == 0 {
      BitZero(j);
    } else {
      assert AllOnesTag(w) / 2 == AllOnesTag(w - 1);
      if j > 0 {
        AllOnesTagBit(w - 1, j - 1);
      }
    }
  }

  // Hashing reaches every set: the last one with this tag.
  lemma HashedLastSet(g: Geometry)
    requires g.Valid() && g.xorIndex
    ensures And(g.Hash(AllOnesTag(g.log2Sets)), g.maskSets) == g.sets - 1
  {
    var x := And(g.Hash(AllOnesTag(g.log2Sets)), g.maskSets);
    forall j: nat
      ensures Bit(x, j) <==> Bit(Pow2(g.log2Sets) - 1, j)
    {
      HashedLastBit(g, j);
    }
    SameBits(x, Pow2(g.log2Sets) - 1);
  }

  lemma HashedLastBit(g: Geometry, j: nat)
    requires g.Valid() && g.xorIndex
    ensures Bit(And(g.Hash(AllOnesTag(g.log2Sets)), g.maskSets), j) <==> Bit(Pow2(g.log2Sets) - 1, j)
  {
    var w := g.log2Sets;
    BitAnd(g.Hash(AllOnesTag(w)), g.maskSets, j);
    if j < w {
      HashedBit(g, AllOnesTag(w), j);
      AllOnesTagBit(w, j);
      AllOnesTagBit(w, j + 5);
      AllOnesTagBit(w, j + w);
      FiveApart(w, j);
    }
    MaskBit(w, j);
  }

  lemma FiveApart(w: nat, j: nat)
    requires j < w
    ensures j + 5 < w ==> (((w - 1 - j) / 5) % 2 == 0) != (((w - 1 - (j + 5)) / 5) % 2 == 0)
    ensures w <= j + 5 ==> (w - 1 - j) / 5 == 0
  {
    if j + 5 < w {
      assert (w - 1 - j) / 5 == (w - 1 - (j + 5)) / 5 + 1;
    }
  }

  lemma HashedBit(g: Geometry, t: nat, j: nat)
    requires g.xorIndex
    ensures Bit(g.Hash(t), j) <==> (Bit(t, j) != Bit(t, j + 5)) != Bit(t, j + g.log2Sets)
  {
    BitXor(Xor(t, Shr(t, 5)), Shr(t, g.log2Sets), j);
    BitXor(t, Shr(t, 5), j);
    BitShr(t, 5, j);
    BitShr(t, g.log2Sets, j);
  }

  // The condition is exact, with and without index hashing: some tag selects the last set.
  lemma WindowsInsideExactly(g: Geometry)
    requires g.Valid()
    ensures HoldsLastSet(g) <==> forall tag: nat :: g.Index(tag) + g.assoc <= g.numLines
  {
    if HoldsLastSet(g) {
      forall tag: nat
        ensures g.Index(tag) + g.assoc <= g.numLines
      {
        WindowsInside(g, tag);
      }
    } else {
      var tag := LastSetTag(g);
      IndexIsMultiple(g, tag);
      assert !(g.Index(tag) + g.assoc <= g.numLines);
    }
  }

  lemma LastSetTag(g: Geometry) returns (tag: nat)
    requires g.Valid()
    ensures And(g.Hash(tag), g.maskSets) == g.sets - 1
  {
    if g.xorIndex {
      tag := AllOnesTag(g.log2Sets);
      HashedLastSet(g);
    } else {
      tag := g.sets - 1;
      AndSelf(tag);
    }
  }

  // A power-of-two number of lines is laid out without a hole or an overrun, for any
  // associativity up to the number of lines.
  lemma PowerOfTwoCacheFits(g: Geometry, lines: nat)
    requires g.Valid() && IsPow2(lines) && g.assoc <= lines <= TWO32 / 2 && g.numLines == lines
    requires g.sets * Pow2(g.log2Assoc) == RoundUp(lines)
    ensures HoldsLastSet(g)
  {
    RoundUpIsLeast(lines);
    Successor(g.sets - 1, Pow2(g.log2Assoc));
  }

  // All a cache needs of its geometry: where the set of a tag starts.
  datatype Layout = Layout(index: nat -> nat, assoc: nat, numLines: nat) {
    ghost predicate Inside(key: nat) {
      index(key) + assoc <= numLines
    }

    ghost predicate Apart(key: nat, other: nat) {
      index(key) == index(other) || index(key) + assoc <= index(other) || index(other) + assoc <= index(key)
    }

    ghost predicate Ok() {
      1 <= assoc && (forall key: nat :: Inside(key)) && forall key: nat, other: nat :: Apart(key, other)
    }
  }

  function LayoutOf(g: Geometry): Layout {
    Layout((tag: nat) => g.Index(tag), g.assoc, g.numLines)
  }

  // Every window lies inside the array and two windows are the same or share no line.
  lemma LayoutIsOk(g: Geometry)
    requires g.Valid() && HoldsLastSet(g)
    ensures LayoutOf(g).Ok()
  {
    var l := LayoutOf(g);
    forall key: nat
      ensures l.Inside(key)
    {
      WindowsInside(g, key);
    }
    forall key: nat, other: nat
      ensures l.Apart(key, other)
    {
      if g.Index(key) != g.Index(other) {
        WindowsDisjoint(g, key, other);
      }
    }
  }
}
