/**
 The history part of the predictor: one circular buffer, and for each tagged table the three
 registers ch_i, ch_t[0] and ch_t[1] that HistoryUpdate receives as H, G and J.
 */
module HistoryPushes {
  import opened Bits
  import opened FoldedHistories

  ghost predicate Distinct(s: seq<FoldedHistory>) {
    forall i, j | 0 <= i < j < |s| :: s[i] != s[j]
  }

  method NewRegisters(n: nat) returns (h: seq<FoldedHistory>, g: seq<FoldedHistory>, j: seq<FoldedHistory>)
    ensures |h| == |g| == |j| == n && Distinct(h + g + j)
    ensures forall i | 0 <= i < n :: fresh(h[i]) && fresh(g[i]) && fresh(j[i])
  {
    var all := [];
    while |all| < 3 * n
      invariant |all| <= 3 * n && Distinct(all) && forall i | 0 <= i < |all| :: fresh(all[i])
    {
      var r := new FoldedHistory();
      all := all + [r];
    }
    h, g, j := all[..n], all[n..2 * n], all[2 * n..];
    assert h + g + j == all;
  }

  class GlobalHistory {
    const nhist: nat
    const ghist: array<nat>
    var ptghist: int
    const H: seq<FoldedHistory>
    const G: seq<FoldedHistory>
    const J: seq<FoldedHistory>

    // Index 0 of each family belongs to no table.
    ghost predicate Shape() {
      && ghist.Length == LENGTH && |H| == |G| == |J| == nhist + 1
      && Distinct(H + G + J)
    }

    ghost predicate Valid()
      reads this, ghist, H, G, J
    {
      Shape() && IsHistory(ghist[..]) && forall k | 1 <= k <= nhist :: TableFolds(k, Entries())
    }

    ghost predicate TableFolds(k: nat, w: seq<nat>)
      requires Shape() && k <= nhist
      reads H[k], G[k], J[k]
    {
      H[k].Folds(w) && G[k].Folds(w) && J[k].Folds(w)
    }

    ghost function Entries(): seq<nat>
      requires ghist.Length == LENGTH
      reads this, ghist
    {
      Window(ghist[..], ptghist)
    }

    // m are the history lengths, logg the index widths and tb the tag widths of the tables.
    constructor (nhist: nat, m: seq<nat>, logg: seq<nat>, tb: seq<nat>)
      requires |m| == |logg| == |tb| == nhist + 1
      requires forall i | 1 <= i <= nhist :: 1 <= m[i] < LENGTH && 1 <= logg[i] <= 30 && 2 <= tb[i] <= 30
      ensures Valid() && this.nhist == nhist && Entries() == seq(LENGTH, _ => 0)
      ensures fresh(ghist) && forall i | 0 <= i <= nhist :: fresh(H[i]) && fresh(G[i]) && fresh(J[i])
      ensures forall i | 1 <= i <= nhist :: Sized(i, m[i], logg[i], tb[i])
    {
      var h, g, j := NewRegisters(nhist + 1);
      this.nhist, H, G, J := nhist, h, g, j;
      ghist := new nat[LENGTH];
      ptghist := 0;
      new;
      Reinit(m, logg, tb);
    }

    method Reinit(m: seq<nat>, logg: seq<nat>, tb: seq<nat>)
      requires Shape() && |m| == |logg| == |tb| == nhist + 1
      requires forall i | 1 <= i <= nhist :: 1 <= m[i] < LENGTH && 1 <= logg[i] <= 30 && 2 <= tb[i] <= 30
      modifies this, ghist, H, G, J
      ensures Valid() && Entries() == seq(LENGTH, _ => 0)
      ensures forall i | 1 <= i <= nhist :: Sized(i, m[i], logg[i], tb[i])
    {
      for i := 1 to nhist + 1
        invariant forall k | 1 <= k < i :: Fresh(k, m, logg, tb)
      {
        ApartFrom(i);
        InitTable(i, m, logg, tb);
      }
      for i := 0 to LENGTH
        invariant forall k | 1 <= k <= nhist :: Fresh(k, m, logg, tb)
        invariant forall k | 0 <= k < i :: ghist[k] == 0
      {
        ghist[i] := 0;
      }
      ptghist := 0;
      EmptyWindow(ghist[..], ptghist);
      NothingFolded(m, logg, tb);
      forall k | 1 <= k <= nhist
        ensures Sized(k, m[k], logg[k], tb[k])
      {
        assert Fresh(k, m, logg, tb);
      }
    }

    ghost predicate Sized(k: nat, m: nat, logg: nat, tb: nat)
      requires Shape() && 1 <= k <= nhist
      reads H[k], G[k], J[k]
    {
      && H[k].olength == G[k].olength == J[k].olength == m
      && H[k].clength == logg && G[k].clength == tb && J[k].clength == tb - 1
    }

    // Table k has been set up and has folded nothing yet.
    ghost predicate Fresh(k: nat, m: seq<nat>, logg: seq<nat>, tb: seq<nat>)
      requires Shape() && 1 <= k <= nhist && |m| == |logg| == |tb| == nhist + 1
      reads H[k], G[k], J[k]
    {
      && Sized(k, m[k], logg[k], tb[k])
      && H[k].Ready() && H[k].comp == 0 && G[k].Ready() && G[k].comp == 0 && J[k].Ready() && J[k].comp == 0
    }

    method InitTable(i: nat, m: seq<nat>, logg: seq<nat>, tb: seq<nat>)
      requires Shape() && 1 <= i <= nhist && |m| == |logg| == |tb| == nhist + 1
      requires 1 <= m[i] < LENGTH && 1 <= logg[i] <= 30 && 2 <= tb[i] <= 30
      modifies H[i], G[i], J[i]
      ensures Fresh(i, m, logg, tb)
    {
      Apart(i, i);
      H[i].Init(m[i], logg[i]);
      G[i].Init(H[i].olength, tb[i]);
      J[i].Init(H[i].olength, tb[i] - 1);
    }

    lemma Apart(i: nat, k: nat)
      requires Shape() && i <= nhist && k <= nhist
      ensures H[i] != G[k] && H[i] != J[k] && G[i] != J[k]
      ensures i != k ==> H[i] != H[k] && G[i] != G[k] && J[i] != J[k]
    {
      var all := H + G + J;
      assert all[i] == H[i] && all[k] == H[k];
      assert all[nhist + 1 + i] == G[i] && all[nhist + 1 + k] == G[k];
      assert all[nhist + 1 + nhist + 1 + i] == J[i] && all[nhist + 1 + nhist + 1 + k] == J[k];
    }

    lemma ApartFrom(i: nat)
      requires Shape() && i <= nhist
      ensures forall k | 0 <= k <= nhist && k != i :: H[k] !in Table(i) && G[k] !in Table(i) && J[k] !in Table(i)
    {
      forall k | 0 <= k <= nhist && k != i
        ensures H[k] !in Table(i) && G[k] !in Table(i) && J[k] !in Table(i)
      {
        Apart(i, k);
        Apart(k, i);
      }
    }

    ghost function Table(i: nat): set<FoldedHistory>
      requires Shape() && i <= nhist
    {
      {H[i], G[i], J[i]}
    }

    lemma NothingFolded(m: seq<nat>, logg: seq<nat>, tb: seq<nat>)
      requires Shape() && |m| == |logg| == |tb| == nhist + 1
      requires forall k | 1 <= k <= nhist :: Fresh(k, m, logg, tb)
      requires Entries() == seq(LENGTH, _ => 0)
      ensures forall k | 1 <= k <= nhist :: TableFolds(k, Entries())
    {
      var w := Entries();
      forall k | 1 <= k <= nhist
        ensures TableFolds(k, w)
      {
        assert Fresh(k, m, logg, tb);
        FoldOfNothing(w, H[k].olength, H[k].clength);
        FoldOfNothing(w, G[k].olength, G[k].clength);
        FoldOfNothing(w, J[k].olength, J[k].clength);
      }
    }

    method UpdateTable(h: FoldedHistory, g: FoldedHistory, j: FoldedHistory, ghost before: seq<nat>)
      requires ghist.Length == LENGTH && IsHistory(ghist[..]) && h != g && h != j && g != j
      requires h.Folds(before) && g.Folds(before) && j.Folds(before)
      requires Entries() == ([ghist[At(ptghist)]] + before)[..LENGTH]
      modifies h`comp, g`comp, j`comp
      ensures h.Folds(Entries()) && g.Folds(Entries()) && j.Folds(Entries())
    {
      h.Update(ghist, ptghist, before);
      g.Update(ghist, ptghist, before);
      j.Update(ghist, ptghist, before);
    }

    // One step of the inner loop: table i catches up, the others stay as they were.
    method PushTable(i: nat, ghost before: seq<nat>)
      requires Shape() && 1 <= i <= nhist && IsHistory(ghist[..]) && IsHistory(before)
      requires Entries() == ([ghist[At(ptghist)]] + before)[..LENGTH]
      requires forall k | 1 <= k < i :: TableFolds(k, Entries())
      requires forall k | i <= k <= nhist :: TableFolds(k, before)
      modifies H`comp, G`comp, J`comp
      ensures forall k | 1 <= k < i + 1 :: TableFolds(k, Entries())
      ensures forall k | i + 1 <= k <= nhist :: TableFolds(k, before)
    {
      ghost var w := Entries();
      Apart(i, i);
      ApartFrom(i);
      assert TableFolds(i, before);
      UpdateTable(H[i], G[i], J[i], before);
      assert Entries() == w;
    }

    // One direction in: the pointer moves, the buffer takes it, and every register follows.
    method Push(dir: nat)
      requires Valid() && dir <= 1
      modifies this`ptghist, ghist, H`comp, G`comp, J`comp
      ensures Valid() && Entries() == ([dir] + old(Entries()))[..LENGTH]
    {
      ghost var before := Entries();
      WindowIsHistory(ghist[..], ptghist);
      Store(dir);
      ghost var after := Entries();
      for i := 1 to nhist + 1
        invariant Entries() == after && IsHistory(ghist[..])
        invariant forall k | 1 <= k < i :: TableFolds(k, after)
        invariant forall k | i <= k <= nhist :: TableFolds(k, before)
      {
        PushTable(i, before);
      }
    }

    method Store(dir: nat)
      requires ghist.Length == LENGTH && IsHistory(ghist[..]) && dir <= 1
      modifies this`ptghist, ghist
      ensures IsHistory(ghist[..]) && ghist[At(ptghist)] == dir
      ensures Entries() == ([dir] + old(Entries()))[..LENGTH]
    {
      PushOnBuffer(ghist[..], ptghist, dir);
      ptghist := ptghist - 1;
      ghist[At(ptghist)] := dir;
      assert ghist[..] == old(ghist[..])[At(ptghist) := dir];
    }

    // The directions of one branch, least significant bit of (PC << 1) + taken first.
    method HistoryUpdate(b: Branch)
      requires Valid()
      modifies this`ptghist, ghist, H`comp, G`comp, J`comp
      ensures Valid() && Entries() == (Directions(b) + old(Entries()))[..LENGTH]
      ensures b.conditional ==> Entries() == ([Dir(b.taken)] + old(Entries()))[..LENGTH]
      ensures var address := [Dir(Bit(b.pc, 2)), Dir(Bit(b.pc, 1)), Dir(Bit(b.pc, 0))];
              !b.conditional ==> Entries() == (address + [Dir(b.taken)] + old(Entries()))[..LENGTH]
    {
      hide Bit, Directions, TableFolds, Sized;
      DirectionsAre(b);
      PushBits(b);
    }

    method PushBits(b: Branch)
      requires Valid()
      modifies this`ptghist, ghist, H`comp, G`comp, J`comp
      ensures Valid() && Entries() == (Directions(b) + old(Entries()))[..LENGTH]
    {
      hide Rest, Sent, Directions, TableFolds, Sized;
      var maxt := if b.conditional then 1 else 4;
      var t := 2 * b.pc + if b.taken then 1 else 0;
      ghost var done: seq<nat> := [];
      SentEnds(b);
      for i := 0 to maxt
        invariant Valid() && t == Rest(b, i) && done == Sent(b, i)
        invariant Entries() == (done + old(Entries()))[..LENGTH]
      {
        var dir := t % 2;
        t := t / 2;
        Push(dir);
        PushAgain(dir, done, old(Entries()));
        done := [dir] + done;
        SentMore(b, i);
      }
    }

    method FetchBoundaryEnd(ops: seq<Branch>)
      requires Valid()
      modifies this`ptghist, ghist, H`comp, G`comp, J`comp
      ensures Valid() && Entries() == (History(ops) + old(Entries()))[..LENGTH]
    {
      for i := 0 to |ops|
        invariant Valid() && Entries() == (History(ops[..i]) + old(Entries()))[..LENGTH]
      {
        HistoryUpdate(ops[i]);
        PushMore(Directions(ops[i]), History(ops[..i]), old(Entries()));
        assert ops[..i + 1][..i] == ops[..i];
      }
      assert ops[..|ops|] == ops;
    }
  }

  // T after i shifts, and what has been sent by then.
  function Rest(b: Branch, i: nat): nat {
    if i == 0 then 2 * b.pc + (if b.taken then 1 else 0) else Rest(b, i - 1) / 2
  }

  function Sent(b: Branch, i: nat): seq<nat> {
    if i == 0 then [] else [Rest(b, i - 1) % 2] + Sent(b, i - 1)
  }

  lemma SentMore(b: Branch, i: nat)
    ensures Sent(b, i + 1) == [Rest(b, i) % 2] + Sent(b, i) && Rest(b, i + 1) == Rest(b, i) / 2
  {
  }

  lemma SentEnds(b: Branch)
    ensures Sent(b, 0) == [] && Rest(b, 0) == 2 * b.pc + if b.taken then 1 else 0
    ensures Directions(b) == Sent(b, if b.conditional then 1 else 4)
  {
    SentMore(b, 0);
    SentMore(b, 1);
    SentMore(b, 2);
    SentMore(b, 3);
    assert Rest(b, 0) % 2 == (if b.taken then 1 else 0) && Rest(b, 1) == b.pc && Rest(b, 2) == b.pc / 2;
    hide Rest, Sent;
    HalvesOf(b.pc);
  }

  lemma HalvesOf(x: nat)
    ensures x / 2 / 2 == x / 4
  {
  }

  lemma PushAgain(d: nat, s: seq<nat>, w: seq<nat>)
    requires |w| == LENGTH
    ensures ([d] + (s + w)[..LENGTH])[..LENGTH] == ([d] + s + w)[..LENGTH]
  {
    PushMore([d], s, w);
  }

  lemma PushMore(r: seq<nat>, s: seq<nat>, w: seq<nat>)
    requires |w| == LENGTH
    ensures (r + (s + w)[..LENGTH])[..LENGTH] == (r + s + w)[..LENGTH]
  {
  }

  // From power-on through any branches at all: every register is the direct fold of the last
  // OLENGTH directions, the history before the first branch being zeros.
  method PredictorAfter(nhist: nat, m: seq<nat>, logg: seq<nat>, tb: seq<nat>, ops: seq<Branch>)
      returns (g: GlobalHistory)
    requires |m| == |logg| == |tb| == nhist + 1
    requires forall i | 1 <= i <= nhist :: 1 <= m[i] < LENGTH && 1 <= logg[i] <= 30 && 2 <= tb[i] <= 30
    ensures g.Valid() && g.nhist == nhist
    ensures forall i | 1 <= i <= nhist ::
      IsFold(g.H[i].comp, History(ops) + seq(LENGTH, _ => 0), m[i], logg[i])
      && IsFold(g.G[i].comp, History(ops) + seq(LENGTH, _ => 0), m[i], tb[i])
      && IsFold(g.J[i].comp, History(ops) + seq(LENGTH, _ => 0), m[i], tb[i] - 1)
  {
    g := new GlobalHistory(nhist, m, logg, tb);
    label Start:
    g.FetchBoundaryEnd(ops);
    ghost var w, v := g.Entries(), History(ops) + seq(LENGTH, _ => 0);
    forall i | 1 <= i <= nhist
      ensures IsFold(g.H[i].comp, v, m[i], logg[i])
      ensures IsFold(g.G[i].comp, v, m[i], tb[i])
      ensures IsFold(g.J[i].comp, v, m[i], tb[i] - 1)
    {
      assert old@Start(g.Sized(i, m[i], logg[i], tb[i])) && g.TableFolds(i, w);
      assert w[..m[i]] == v[..m[i]];
      FoldOfPrefix(g.H[i].comp, w, v, m[i], logg[i]);
      FoldOfPrefix(g.G[i].comp, w, v, m[i], tb[i]);
      FoldOfPrefix(g.J[i].comp, w, v, m[i], tb[i] - 1);
    }
  }

  lemma EmptyWindow(h: seq<nat>, pt: int)
    requires |h| == LENGTH && forall i | 0 <= i < LENGTH :: h[i] == 0
    ensures IsHistory(h) && Window(h, pt) == seq(LENGTH, _ => 0)
  {
    forall i | 0 <= i < LENGTH
      ensures Window(h, pt)[i] == 0
    {
      assert Window(h, pt)[i] == h[At(pt + i)];
    }
  }
}
