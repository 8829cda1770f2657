/**
 Bitwise operations on unsigned machine words, modelled on natural numbers.
 Bit j of x is read off by halving; words of w bits are numbers below Pow2(w).
 */
module Bits {
  function Pow2(k: nat): (p: nat)
    ensures 1 <= p
  {
    if k == 0 then 1 else 2 * Pow2(k - 1)
  }

  function Bit(x: nat, j: nat): bool {
    if j == 0 then x % 2 == 1 else Bit(x / 2, j - 1)
  }

  function And(x: nat, y: nat): nat {
    if x == 0 then 0 else 2 * And(x / 2, y / 2) + if x % 2 == 1 && y % 2 == 1 then 1 else 0
  }

  function Or(x: nat, y: nat): nat
    decreases x + y
  {
    if x == 0 then y else if y == 0 then x else 2 * Or(x / 2, y / 2) + if x % 2 == 1 || y % 2 == 1 then 1 else 0
  }

  function Xor(x: nat, y: nat): nat
    decreases x + y
  {
    if x == 0 then y else if y == 0 then x else 2 * Xor(x / 2, y / 2) + (x + y) % 2
  }

  function Shl(x: nat, k: nat): nat {
    if k == 0 then x else 2 * Shl(x, k - 1)
  }

  function Shr(x: nat, k: nat): nat {
    if k == 0 then x else Shr(x / 2, k - 1)
  }

  // The w low bits, as a store into a w-bit word keeps them.
  function Low(x: nat, w: nat): nat {
    if w == 0 then 0 else 2 * Low(x / 2, w - 1) + x % 2
  }

  const TWO32: nat := 0x1_0000_0000

  lemma TwoTo32()
    ensures Pow2(32) == TWO32
  {
    assert Pow2(4) == 16;
    assert Pow2(8) == 256;
    Pow2Sum(8, 8);
    Pow2Sum(16, 16);
  }

  lemma {:induction false} Pow2Sum(a: nat, b: nat)
    ensures Pow2(a + b) == Pow2(a) * Pow2(b)
  {
    if a > 0 {
      Pow2Sum(a - 1, b);
    }
  }

  lemma {:induction false} BitZero(j: nat)
    ensures !Bit(0, j)
  {
    if j > 0 {
      BitZero(j - 1);
    }
  }

  lemma {:induction false} BitAnd(x: nat, y: nat, j: nat)
    ensures Bit(And(x, y), j) <==> Bit(x, j) && Bit(y, j)
    decreases j
  {
    if x == 0 {
      BitZero(j);
    } else {
      var a := And(x, y);
      assert a / 2 == And(x / 2, y / 2);
      if j > 0 {
        BitAnd(x / 2, y / 2, j - 1);
      }
    }
  }

  lemma {:induction false} BitOr(x: nat, y: nat, j: nat)
    ensures Bit(Or(x, y), j) <==> Bit(x, j) || Bit(y, j)
    decreases j
  {
    if x == 0 || y == 0 {
      BitZero(j);
    } else {
      assert Or(x, y) / 2 == Or(x / 2, y / 2);
      if j > 0 {
        BitOr(x / 2, y / 2, j - 1);
      }
    }
  }

  lemma {:induction false} BitXor(x: nat, y: nat, j: nat)
    ensures Bit(Xor(x, y), j) <==> Bit(x, j) != Bit(y, j)
    decreases j
  {
    if x == 0 || y == 0 {
      BitZero(j);
    } else {
      hide Xor;
      XorHalves(x, y);
      if j > 0 {
        BitXor(x / 2, y / 2, j - 1);
      }
    }
  }

  lemma XorHalves(x: nat, y: nat)
    requires x != 0 && y != 0
    ensures Xor(x, y) / 2 == Xor(x / 2, y / 2) && Xor(x, y) % 2 == (x + y) % 2
  {
  }

  lemma {:induction false} BitShl(x: nat, k: nat, j: nat)
    ensures Bit(Shl(x, k), j) <==> k <= j && Bit(x, j - k)
    decreases k
  {
    if k > 0 {
      assert Shl(x, k) / 2 == Shl(x, k - 1);
      if j > 0 {
        BitShl(x, k - 1, j - 1);
      }
    }
  }

  lemma {:induction false} BitShr(x: nat, k: nat, j: nat)
    ensures Bit(Shr(x, k), j) <==> Bit(x, j + k)
    decreases k
  {
    if k > 0 {
      BitShr(x / 2, k - 1, j);
    }
  }

  lemma {:induction false} BitLow(x: nat, w: nat, j: nat)
    ensures Bit(Low(x, w), j) <==> j < w && Bit(x, j)
    decreases w
  {
    if w == 0 {
      BitZero(j);
    } else {
      assert Low(x, w) / 2 == Low(x / 2, w - 1);
      if j > 0 {
        BitLow(x / 2, w - 1, j - 1);
      }
    }
  }

  // Words with the same bits are the same.
  lemma {:induction false} SameBits(x: nat, y: nat)
    requires forall j: nat :: Bit(x, j) <==> Bit(y, j)
    ensures x == y
    decreases x + y
  {
    assert Bit(x, 0) <==> Bit(y, 0);
    forall j: nat
      ensures Bit(x / 2, j) <==> Bit(y / 2, j)
    {
      assert Bit(x, j + 1) <==> Bit(y, j + 1);
    }
    if x != 0 || y != 0 {
      SameBits(x / 2, y / 2);
    }
  }

  lemma {:induction false} LowBelow(x: nat, w: nat)
    ensures Low(x, w) < Pow2(w)
    ensures x < Pow2(w) ==> Low(x, w) == x
  {
    if w > 0 {
      LowBelow(x / 2, w - 1);
    }
  }

  // A power of two, as a property of the number.
  predicate IsPow2(x: nat) {
    x == 1 || (0 < x && x % 2 == 0 && IsPow2(x / 2))
  }

  lemma {:induction false} Pow2IsPow2(k: nat)
    ensures IsPow2(Pow2(k))
  {
    if k > 0 {
      Pow2IsPow2(k - 1);
      assert Pow2(k) / 2 == Pow2(k - 1);
    }
  }

  lemma {:induction false} IsPow2Exponent(x: nat) returns (k: nat)
    requires IsPow2(x)
    ensures x == Pow2(k)
  {
    if x == 1 {
      k := 0;
    } else {
      k := IsPow2Exponent(x / 2);
      k := k + 1;
    }
  }

  lemma {:induction false} AndSelf(x: nat)
    ensures And(x, x) == x
  {
    if x != 0 {
      AndSelf(x / 2);
    }
  }

  // The usual test: x & (x - 1) is zero for powers of two only.
  lemma {:induction false} AndPredecessor(x: nat)
    requires 0 < x
    ensures And(x, x - 1) == 0 <==> IsPow2(x)
  {
    if x % 2 == 1 {
      assert (x - 1) / 2 == x / 2;
      AndSelf(x / 2);
    } else {
      assert (x - 1) / 2 == x / 2 - 1;
      AndPredecessor(x / 2);
    }
  }

  // Masking with size - 1 wraps an index that is at most one lap ahead.
  lemma {:induction false} AndWraps(x: nat, size: nat)
    requires IsPow2(size) && x < 2 * size
    ensures And(x, size - 1) == if x < size then x else x - size
    decreases size
  {
    if size == 1 {
      if x == 1 {
        assert And(0, 0) == 0;
      }
    } else if x != 0 {
      AndWraps(x / 2, size / 2);
      assert (size - 1) / 2 == size / 2 - 1;
    }
  }

  // A power of two of 32 bits is at most the top one.
  lemma PowersApart(x: nat)
    requires IsPow2(x) && x < TWO32
    ensures 2 * x <= TWO32
  {
    TwoTo32();
    Pow2IsPow2(31);
    NextPowerApart(x, Pow2(31));
  }

  lemma {:induction false} NextPowerApart(x: nat, y: nat)
    requires IsPow2(x) && IsPow2(y) && x < 2 * y
    ensures x <= y
  {
    if x > 1 && y > 1 {
      NextPowerApart(x / 2, y / 2);
    }
  }

  lemma {:induction false} AndBelow(x: nat, size: nat)
    requires IsPow2(size)
    ensures And(x, size - 1) < size
    decreases size
  {
    if size == 1 {
      AndZero(x);
    } else if x != 0 {
      AndBelow(x / 2, size / 2);
      assert (size - 1) / 2 == size / 2 - 1;
    }
  }

  // Masking with size - 1 is the remainder, shifting down the quotient.
  lemma {:induction false} AndIsMod(x: nat, size: nat)
    requires IsPow2(size)
    ensures And(x, size - 1) == x % size
    decreases size
  {
    if size == 1 {
      AndZero(x);
    } else {
      AndIsMod(x / 2, size / 2);
      AndHalves(x, size / 2);
      hide And, IsPow2;
      HalfMod(x, size / 2);
    }
  }

  lemma AndHalves(x: nat, h: nat)
    requires 0 < h
    ensures And(x, 2 * h - 1) == 2 * And(x / 2, h - 1) + x % 2
  {
    assert (2 * h - 1) / 2 == h - 1 && (2 * h - 1) % 2 == 1;
  }

  lemma HalfMod(x: nat, h: nat)
    requires 0 < h
    ensures x % (2 * h) == 2 * (x / 2 % h) + x % 2
  {
    var q := x / 2 / h;
    assert x / 2 == q * h + x / 2 % h;
    assert x == q * (2 * h) + (2 * (x / 2 % h) + x % 2);
    Remainder(x, 2 * h, q, 2 * (x / 2 % h) + x % 2);
  }

  // Quotient and remainder are unique.
  lemma Remainder(x: nat, y: nat, q: nat, r: nat)
    requires x == q * y + r && r < y
    ensures x / y == q && x % y == r
  {
    var d := x / y - q;
    assert x == (x / y) * y + x % y;
    assert d * y == r - x % y;
    assert d >= 1 ==> d * y >= y;
    assert d <= -1 ==> d * y <= 0 - y;
  }

  lemma {:induction false} ShrIsDiv(x: nat, k: nat)
    ensures Shr(x, k) == x / Pow2(k)
  {
    if k > 0 {
      ShrIsDiv(x / 2, k - 1);
      HalfDiv(x, Pow2(k - 1));
    }
  }

  lemma HalfDiv(x: nat, h: nat)
    requires 0 < h
    ensures x / (2 * h) == x / 2 / h
  {
    var q := x / 2 / h;
    assert x / 2 == q * h + x / 2 % h;
    assert x == q * (2 * h) + (2 * (x / 2 % h) + x % 2);
    Remainder(x, 2 * h, q, 2 * (x / 2 % h) + x % 2);
  }

  lemma {:induction false} AndZero(x: nat)
    ensures And(x, 0) == 0
  {
    if x != 0 {
      AndZero(x / 2);
    }
  }

  // All ones, as the word before zero, selects the whole mask.
  lemma {:induction false} AndAllOnes(w: nat, y: nat)
    requires y < Pow2(w)
    ensures And(Pow2(w) - 1, y) == y
  {
    if w > 0 {
      assert (Pow2(w) - 1) / 2 == Pow2(w - 1) - 1;
      AndAllOnes(w - 1, y / 2);
    }
  }

  lemma {:induction false} MaskBit(c: nat, j: nat)
    ensures Bit(Pow2(c) - 1, j) <==> j < c
    decreases j
  {
    if c == 0 {
      BitZero(j);
    } else {
      assert (Pow2(c) - 1) / 2 == Pow2(c - 1) - 1;
      if j > 0 {
        MaskBit(c - 1, j - 1);
      }
    }
  }

  lemma {:induction false} ShlOne(c: nat)
    ensures Shl(1, c) == Pow2(c)
  {
    if c > 0 {
      ShlOne(c - 1);
    }
  }

  lemma HighBitsClear(x: nat, c: nat, j: nat)
    requires x < Pow2(c) && c <= j
    ensures !Bit(x, j)
  {
    LowBelow(x, c);
    BitLow(x, c, j);
  }
}
