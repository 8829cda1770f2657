/**
 The global branch history of the TAGE predictor and its folded registers.

 The history is a circular buffer of 4096 directions, most recent first from ptghist on.  Each
 tagged table keeps three cyclic shift registers that fold its last OLENGTH directions into
 CLENGTH bits; they are updated one direction at a time and never recomputed.
 */
module FoldedHistories {
  import opened Bits

  // HISTBUFFERLENGTH
  const LENGTH: nat := 4096

  // PT & (HISTBUFFERLENGTH - 1); the pointer is decremented forever, so it is negative.
  function At(p: int): (i: nat)
    ensures i < LENGTH
  {
    p % 4096
  }

  predicate IsHistory(h: seq<nat>) {
    |h| == LENGTH && forall i | 0 <= i < LENGTH :: h[i] <= 1
  }

  // The buffer as the predictor sees it: entry 0 is the most recent direction.
  function Window(h: seq<nat>, pt: int): (w: seq<nat>)
    requires |h| == LENGTH
    ensures |w| == LENGTH
  {
    seq(LENGTH, i => h[At(pt + i)])
  }

  // The direct fold: bit j is the parity of every c-th of the o most recent directions.
  function Parity(w: seq<nat>, o: nat, c: nat, j: nat): bool
    requires o <= |w| && 0 < c
  {
    if o == 0 then false else Parity(w, o - 1, c, j) != ((o - 1) % c == j && w[o - 1] == 1)
  }

  ghost predicate IsFold(comp: nat, w: seq<nat>, o: nat, c: nat)
    requires o <= |w| && 0 < c
  {
    comp < Pow2(c) && forall j: nat | j < c :: Bit(comp, j) == Parity(w, o, c, j)
  }

  lemma {:induction false} ParityOfPrefix(w: seq<nat>, v: seq<nat>, o: nat, c: nat, j: nat)
    requires o <= |w| && o <= |v| && 0 < c && w[..o] == v[..o]
    ensures Parity(w, o, c, j) == Parity(v, o, c, j)
  {
    if o > 0 {
      assert w[..o - 1] == w[..o][..o - 1] == v[..o - 1];
      assert w[..o][o - 1] == v[..o][o - 1];
      ParityOfPrefix(w, v, o - 1, c, j);
    }
  }

  // A register holds nothing but the last OLENGTH directions: whatever came before, two
  // histories that agree on those give the same register.
  lemma FoldOfLastDirections(a: nat, b: nat, w: seq<nat>, v: seq<nat>, o: nat, c: nat)
    requires o <= |w| && o <= |v| && 0 < c && w[..o] == v[..o]
    requires IsFold(a, w, o, c) && IsFold(b, v, o, c)
    ensures a == b
  {
    forall j: nat
      ensures Bit(a, j) <==> Bit(b, j)
    {
      if j < c {
        ParityOfPrefix(w, v, o, c, j);
      } else {
        HighBitsClear(a, c, j);
        HighBitsClear(b, c, j);
      }
    }
    SameBits(a, b);
  }

  // Where the shift takes bit j from.
  function Previous(j: nat, c: nat): nat
    requires j < c
  {
    if j == 0 then c - 1 else j - 1
  }

  lemma NextPlace(i: nat, c: nat)
    requires 0 < c
    ensures (i + 1) % c == if i % c == c - 1 then 0 else i % c + 1
  {
    var q, r := i / c, i % c;
    assert i == q * c + r;
    if r == c - 1 {
      assert i + 1 == (q + 1) * c;
      Remainder(i + 1, q + 1, 0, c);
    } else {
      Remainder(i + 1, q, r + 1, c);
    }
  }

  lemma Remainder(x: nat, q: nat, r: nat, c: nat)
    requires x == q * c + r && r < c
    ensures x % c == r
  {
    var d := x / c - q;
    assert x == (x / c) * c + x % c;
    assert (x / c) * c - q * c == d * c;
    assert d * c == r - x % c;
    assert d >= 1 ==> d * c >= c;
    assert d <= -1 ==> d * c <= 0 - c;
  }

  // One more direction in front shifts every place by one, cyclically.
  lemma {:induction false} ParityAfterPush(w: seq<nat>, d: nat, k: nat, c: nat, j: nat)
    requires k <= |w| && j < c
    ensures Parity([d] + w, k + 1, c, j) == (Parity(w, k, c, Previous(j, c)) != (j == 0 && d == 1))
  {
    var v := [d] + w;
    if k == 0 {
      assert Parity(v, 0, c, j) == false;
      assert 0 % c == 0;
    } else {
      ParityAfterPush(w, d, k - 1, c, j);
      NextPlace(k - 1, c);
      assert v[k] == w[k - 1];
    }
  }

  lemma BitOfDirection(d: nat, j: nat)
    requires d <= 1
    ensures Bit(d, j) <==> j == 0 && d == 1
  {
    if j > 0 {
      BitZero(j - 1);
      assert d / 2 == 0;
    }
  }

  // comp << 1 in 32 bits, with the incoming direction and the outgoing one folded in.
  function Shifted(comp: nat, d: nat, e: nat, p: nat): nat {
    Xor(Xor(Low(Shl(comp, 1), 32), d), Low(Shl(e, p), 32))
  }

  lemma ShiftedBit(comp: nat, d: nat, e: nat, p: nat, c: nat, j: nat)
    requires comp < Pow2(c) && d <= 1 && e <= 1 && p < c <= 30
    ensures Bit(Shifted(comp, d, e, p), j)
       <==> ((j <= c && 0 < j && Bit(comp, j - 1)) != (j == 0 && d == 1)) != (j == p && e == 1)
  {
    var a, b := Low(Shl(comp, 1), 32), Low(Shl(e, p), 32);
    BitXor(Xor(a, d), b, j);
    BitXor(a, d, j);
    BitLow(Shl(comp, 1), 32, j);
    BitShl(comp, 1, j);
    BitLow(Shl(e, p), 32, j);
    BitShl(e, p, j);
    BitOfDirection(d, j);
    if p <= j {
      BitOfDirection(e, j - p);
    }
    if c < j {
      HighBitsClear(comp, c, j - 1);
    }
  }

  // The bit pushed out at the top comes back in at the bottom.
  lemma WrappedBit(x: nat, c: nat, j: nat)
    requires j < c
    ensures Bit(And(Xor(x, Shr(x, c)), Pow2(c) - 1), j) <==> Bit(x, j) != Bit(x, j + c)
  {
    BitAnd(Xor(x, Shr(x, c)), Pow2(c) - 1, j);
    MaskBit(c, j);
    BitXor(x, Shr(x, c), j);
    BitShr(x, c, j);
  }

  // (1 << CLENGTH) - 1
  function Mask(c: nat): (m: nat)
    ensures m == Pow2(c) - 1
  {
    ShlOne(c);
    Shl(1, c) - 1
  }

  function Rotated(x: nat, c: nat): nat {
    And(Xor(x, Shr(x, c)), Mask(c))
  }

  // One update of the register is one push on the history it folds.
  lemma UpdateFolds(comp: nat, w: seq<nat>, d: nat, o: nat, c: nat)
    requires 1 <= c <= 30 && 1 <= o < LENGTH && IsHistory(w) && d <= 1
    requires IsFold(comp, w, o, c)
    ensures IsFold(Rotated(Shifted(comp, d, ([d] + w)[o], o % c), c), [d] + w, o, c)
  {
    var v := [d] + w;
    var x := Shifted(comp, d, v[o], o % c);
    var r := Rotated(x, c);
    Pow2IsPow2(c);
    AndBelow(Xor(x, Shr(x, c)), Pow2(c));
    forall j: nat | j < c
      ensures Bit(r, j) == Parity(v, o, c, j)
    {
      WrappedBit(x, c, j);
      ShiftedBit(comp, d, v[o], o % c, c, j);
      ShiftedBit(comp, d, v[o], o % c, c, j + c);
      assert Bit(comp, Previous(j, c)) == Parity(w, o, c, Previous(j, c));
      ParityAfterPush(w, d, o, c, j);
    }
  }

  class FoldedHistory {
    var comp: nat
    var clength: nat
    var olength: nat
    var outpoint: nat

    constructor ()
      ensures comp == 0 && clength == 0 && olength == 0 && outpoint == 0
    {
      comp, clength, olength, outpoint := 0, 0, 0, 0;
    }

    ghost predicate Ready()
      reads this
    {
      1 <= clength <= 30 && 1 <= olength < LENGTH && outpoint == olength % clength
    }

    ghost predicate Folds(w: seq<nat>)
      reads this
    {
      Ready() && IsHistory(w) && IsFold(comp, w, olength, clength)
    }

    method Init(originalLength: nat, compressedLength: nat)
      requires 1 <= compressedLength <= 30 && 1 <= originalLength < LENGTH
      modifies this
      ensures Ready() && comp == 0 && olength == originalLength && clength == compressedLength
    {
      comp, olength, clength := 0, originalLength, compressedLength;
      outpoint := olength % clength;
    }

    // h already holds the new direction at pt.
    method Update(h: array<nat>, pt: int, ghost before: seq<nat>)
      requires Folds(before) && IsHistory(h[..])
      requires Window(h[..], pt) == ([h[At(pt)]] + before)[..LENGTH]
      modifies `comp
      ensures Folds(Window(h[..], pt))
    {
      ghost var was := comp;
      Rotate(h[At(pt)], h[At(pt + olength)]);
      UpdateOnBuffer(h[..], pt, before, was, olength, clength);
    }

    // The register arithmetic of Update, with the direction coming in and the one going out.
    method Rotate(incoming: nat, outgoing: nat)
      modifies `comp
      ensures comp == Rotated(Shifted(old(comp), incoming, outgoing, outpoint), clength)
    {
      comp := Xor(Low(Shl(comp, 1), 32), incoming);
      comp := Xor(comp, Low(Shl(outgoing, outpoint), 32));
      comp := Xor(comp, Shr(comp, clength));
      comp := And(comp, Mask(clength));
    }
  }

  lemma WindowIsPush(h: seq<nat>, pt: int, before: seq<nat>, o: nat)
    requires IsHistory(h) && |before| == LENGTH && o < LENGTH
    requires Window(h, pt) == ([h[At(pt)]] + before)[..LENGTH]
    ensures h[At(pt + o)] == ([h[At(pt)]] + before)[o] && IsHistory(Window(h, pt))
    ensures Window(h, pt)[..o] == ([h[At(pt)]] + before)[..o]
  {
    WindowIsHistory(h, pt);
    assert Window(h, pt)[o] == h[At(pt + o)];
  }

  lemma WindowIsHistory(h: seq<nat>, pt: int)
    requires IsHistory(h)
    ensures IsHistory(Window(h, pt))
  {
    var w := Window(h, pt);
    forall i | 0 <= i < LENGTH
      ensures w[i] <= 1
    {
      assert w[i] == h[At(pt + i)];
    }
  }

  // The update of a register, read off the buffer.
  lemma UpdateOnBuffer(h: seq<nat>, pt: int, before: seq<nat>, comp: nat, o: nat, c: nat)
    requires 1 <= c <= 30 && 1 <= o < LENGTH && IsHistory(before) && IsHistory(h)
    requires IsFold(comp, before, o, c)
    requires Window(h, pt) == ([h[At(pt)]] + before)[..LENGTH]
    ensures IsHistory(Window(h, pt))
    ensures IsFold(Rotated(Shifted(comp, h[At(pt)], h[At(pt + o)], o % c), c), Window(h, pt), o, c)
  {
    var r := Rotated(Shifted(comp, h[At(pt)], h[At(pt + o)], o % c), c);
    WindowIsPush(h, pt, before, o);
    UpdateFolds(comp, before, h[At(pt)], o, c);
    FoldOfPrefix(r, [h[At(pt)]] + before, Window(h, pt), o, c);
  }

  lemma FoldOfPrefix(comp: nat, w: seq<nat>, v: seq<nat>, o: nat, c: nat)
    requires o <= |w| && o <= |v| && 0 < c && w[..o] == v[..o]
    requires IsFold(comp, w, o, c)
    ensures IsFold(comp, v, o, c)
  {
    forall j: nat | j < c
      ensures Bit(comp, j) == Parity(v, o, c, j)
    {
      ParityOfPrefix(w, v, o, c, j);
    }
  }

  lemma {:induction false} ParityOfNothing(w: seq<nat>, o: nat, c: nat, j: nat)
    requires o <= |w| && 0 < c && forall i | 0 <= i < o :: w[i] == 0
    ensures !Parity(w, o, c, j)
  {
    if o > 0 {
      ParityOfNothing(w, o - 1, c, j);
    }
  }

  lemma FoldOfNothing(w: seq<nat>, o: nat, c: nat)
    requires o <= |w| && 0 < c && forall i | 0 <= i < o :: w[i] == 0
    ensures IsFold(0, w, o, c)
  {
    forall j: nat | j < c
      ensures Bit(0, j) == Parity(w, o, c, j)
    {
      BitZero(j);
      ParityOfNothing(w, o, c, j);
    }
  }

  // Writing in front of the pointer is pushing on the window.
  lemma PushOnBuffer(h: seq<nat>, pt: int, d: nat)
    requires IsHistory(h) && d <= 1
    ensures IsHistory(h[At(pt - 1) := d])
    ensures Window(h[At(pt - 1) := d], pt - 1) == ([d] + Window(h, pt))[..LENGTH]
  {
    var h', w := h[At(pt - 1) := d], Window(h, pt);
    var v := ([d] + w)[..LENGTH];
    forall i | 0 <= i < LENGTH
      ensures Window(h', pt - 1)[i] == v[i]
    {
      if i > 0 {
        assert v[i] == w[i - 1] == h[At(pt + i - 1)];
        assert At(pt - 1 + i) != At(pt - 1);
      }
    }
  }

  // What a branch adds to the history, most recent direction first: its outcome, and for
  // anything but a conditional branch also three bits of its address.
  datatype Branch = Branch(pc: nat, conditional: bool, taken: bool)

  function Directions(b: Branch): (s: seq<nat>)
    ensures forall i | 0 <= i < |s| :: s[i] <= 1
  {
    var t := if b.taken then 1 else 0;
    if b.conditional then [t] else [(b.pc / 4) % 2, (b.pc / 2) % 2, b.pc % 2, t]
  }

  // The most recent branch is the last of the list and the first of the history.
  function History(bs: seq<Branch>): (s: seq<nat>)
    ensures forall i | 0 <= i < |s| :: s[i] <= 1
  {
    if bs == [] then [] else Directions(bs[|bs| - 1]) + History(bs[..|bs| - 1])
  }

  function Dir(b: bool): nat { if b then 1 else 0 }

  lemma DirectionsAre(b: Branch)
    ensures b.conditional ==> Directions(b) == [Dir(b.taken)]
    ensures !b.conditional ==> Directions(b) == [Dir(Bit(b.pc, 2)), Dir(Bit(b.pc, 1)), Dir(Bit(b.pc, 0)), Dir(b.taken)]
  {
    assert b.pc / 2 / 2 == b.pc / 4;
    assert Bit(b.pc, 1) == Bit(b.pc / 2, 0) && Bit(b.pc, 2) == Bit(b.pc / 2, 1) == Bit(b.pc / 2 / 2, 0);
  }

  // How many directions the branches from the k-th on have added.
  function Added(bs: seq<Branch>, k: nat): nat
    requires k <= |bs|
    decreases |bs| - k
  {
    if k == |bs| then 0 else Added(bs, k + 1) + if bs[k].conditional then 1 else 4
  }

  // Where the directions of branch b stand: its address bits before its outcome.
  ghost predicate StandsAt(h: seq<nat>, from: nat, b: Branch) {
    && from + (if b.conditional then 1 else 4) <= |h|
    && (b.conditional ==> h[from] == Dir(b.taken))
    && (!b.conditional ==> h[from] == Dir(Bit(b.pc, 2)) && h[from + 1] == Dir(Bit(b.pc, 1)))
    && (!b.conditional ==> h[from + 2] == Dir(Bit(b.pc, 0)) && h[from + 3] == Dir(b.taken))
  }

  lemma StandsBehind(s: seq<nat>, h: seq<nat>, from: nat, b: Branch)
    requires StandsAt(h, from, b)
    ensures StandsAt(s + h, |s| + from, b)
  {
    hide Bit;
  }

  lemma StandsFirst(h: seq<nat>, b: Branch)
    ensures StandsAt(Directions(b) + h, 0, b) && |Directions(b)| == if b.conditional then 1 else 4
  {
    DirectionsAre(b);
    hide Bit, Directions;
  }

  // Each branch stands in the history behind all later ones, and that is all there is.
  lemma {:induction false} HistoryAt(bs: seq<Branch>, k: nat)
    requires k < |bs|
    ensures StandsAt(History(bs), Added(bs, k + 1), bs[k]) && |History(bs)| == Added(bs, 0)
    decreases |bs|
  {
    hide StandsAt, Directions;
    var n := |bs| - 1;
    var h := History(bs[..n]);
    StandsFirst(h, bs[n]);
    AddedBefore(bs, 0);
    if n > 0 {
      HistoryAt(bs[..n], if k < n then k else 0);
    }
    if k < n {
      AddedBefore(bs, k + 1);
      StandsBehind(Directions(bs[n]), h, Added(bs[..n], k + 1), bs[k]);
    }
  }

  lemma {:induction false} AddedBefore(bs: seq<Branch>, k: nat)
    requires k < |bs|
    ensures var n := |bs| - 1; Added(bs, k) == Added(bs[..n], k) + if bs[n].conditional then 1 else 4
    decreases |bs| - k
  {
    if k < |bs| - 1 {
      AddedBefore(bs, k + 1);
    }
  }
}
