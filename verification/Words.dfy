// Unsigned 64-bit words: their value as a number, and the facts about masks,
// carries and bit reversal that the hash table cursor relies on.
module Words {

  const ONES: bv64 := 0xFFFF_FFFF_FFFF_FFFF

  function Half(v: bv64): bv64 { v >> 1 }

  function And(v: bv64, w: bv64): bv64 { v & w }

  function Or(v: bv64, w: bv64): bv64 { v | w }

  function Not(v: bv64): bv64 { !v }

  function Inc(v: bv64): bv64 { v + 1 }

  function Bit0(v: bv64): (n: nat) ensures n <= 1 { if v & 1 == 1 then 1 else 0 }

  // The number that the low n bits of a word stand for.
  function Low(v: bv64, n: nat): nat {
    if n == 0 then 0 else 2 * Low(Half(v), n - 1) + Bit0(v)
  }

  // The number a word stands for.
  function Val(v: bv64): nat { Low(v, 64) }

  // Only the low n bits of v can be set.
  predicate Fits(v: bv64, n: nat) { if n == 0 then v == 0 else Fits(Half(v), n - 1) }

  // A run of ones at the low end, as in size - 1 for a power of two.
  predicate LowMask(m: bv64) { m & (m + 1) == 0 }

  // ---- facts of one or two operations, left to the bit-vector solver ----

  lemma SameHalf(a: bv64, b: bv64)
    requires Half(a) == Half(b) && Bit0(a) == Bit0(b)
    ensures a == b
  {}

  lemma AndHalf(v: bv64, w: bv64)
    ensures Half(And(v, w)) == And(Half(v), Half(w))
    ensures Bit0(And(v, w)) == if Bit0(v) == 1 then Bit0(w) else 0
  {}

  lemma OrHalf(v: bv64, w: bv64)
    ensures Half(Or(v, w)) == Or(Half(v), Half(w))
  {}

  lemma OrBit(v: bv64, w: bv64)
    ensures Bit0(Or(v, w)) == if Bit0(v) == 1 then 1 else Bit0(w)
  {}

  lemma ClearHalf(a: bv64, m: bv64)
    ensures Half(And(a, Not(m))) == And(Half(a), Not(Half(m)))
  {}

  lemma ClearBit(a: bv64, m: bv64)
    requires Bit0(m) == 1
    ensures Bit0(And(a, Not(m))) == 0
  {}

  lemma IncEven(v: bv64)
    requires Bit0(v) == 0
    ensures Half(Inc(v)) == Half(v) && Bit0(Inc(v)) == 1
  {}

  lemma IncOdd(v: bv64)
    requires Bit0(v) == 1 && v != ONES
    ensures Half(Inc(v)) == Inc(Half(v)) && Bit0(Inc(v)) == 0 && Half(v) != ONES
  {}

  lemma LowMaskHalf(m: bv64)
    requires LowMask(m) && m != 0
    ensures Bit0(m) == 1 && LowMask(Half(m))
  {}

  lemma Zeroes(v: bv64)
    ensures Half(0) == 0 && Bit0(0) == 0 && And(v, 0) == 0 && Or(v, 0) == v && And(v, Not(0)) == v
  {}

  function Shr8(v: bv64): bv64 { v >> 8 }

  lemma Shifts(v: bv64)
    ensures Shr8(Shr8(Shr8(Shr8(Shr8(Shr8(Shr8(Shr8(v)))))))) == 0
  {}

  lemma FitsShift(v: bv64, n: nat)
    requires Fits(Shr8(v), n)
    ensures Fits(v, n + 8)
  {
    var u := Half(Half(Half(Half(v))));
    assert Half(Half(Half(Half(u)))) == Shr8(v);
    assert Fits(Half(Half(Half(u))), n + 1);
    assert Fits(u, n + 4);
    assert Fits(Half(Half(v)), n + 6);
  }

  lemma FitsZero()
    ensures Fits(0, 0)
  {}

  lemma AllFit(v: bv64)
    ensures Fits(v, 64)
  {
    hide *;
    var v1 := Shr8(v); var v2 := Shr8(v1); var v3 := Shr8(v2); var v4 := Shr8(v3);
    var v5 := Shr8(v4); var v6 := Shr8(v5); var v7 := Shr8(v6);
    Shifts(v);
    FitsZero();
    FitsShift(v7, 0); FitsShift(v6, 8); FitsShift(v5, 16); FitsShift(v4, 24);
    FitsShift(v3, 32); FitsShift(v2, 40); FitsShift(v1, 48); FitsShift(v, 56);
  }

  // ---- the number of a word ----

  lemma {:induction false} LowInjective(a: bv64, b: bv64, n: nat)
    requires Fits(a, n) && Fits(b, n) && Low(a, n) == Low(b, n)
    ensures a == b
    decreases n
  {
    hide Half, Bit0;
    if n != 0 {
      LowInjective(Half(a), Half(b), n - 1);
      SameHalf(a, b);
    }
  }

  lemma {:induction false} LowAnd(v: bv64, w: bv64, n: nat)
    ensures Low(And(v, w), n) <= Low(w, n)
    decreases n
  {
    hide Half, Bit0, And;
    if n != 0 { AndHalf(v, w); LowAnd(Half(v), Half(w), n - 1); }
  }

  lemma {:induction false} LowZero(n: nat)
    ensures Low(0, n) == 0
    decreases n
  {
    hide Half, Bit0;
    if n != 0 { Zeroes(0); LowZero(n - 1); }
  }

  // Incrementing carries through n low ones, or adds one to the n low bits.
  lemma {:induction false} LowInc(v: bv64, n: nat)
    requires v != ONES
    ensures Low(Inc(v), n) == Low(v, n) + 1 || (Low(Inc(v), n) == 0 && (n != 0 ==> Low(v, n) != 0))
    decreases n
  {
    hide Half, Bit0, Inc;
    if n == 0 {
    } else if Bit0(v) == 0 {
      IncEven(v);
    } else {
      IncOdd(v);
      LowInc(Half(v), n - 1);
    }
  }

  lemma IncNonZero(v: bv64)
    requires v != ONES
    ensures Inc(v) != 0
  {}

  // ---- whole words ----

  lemma ValInjective(a: bv64, b: bv64)
    requires Val(a) == Val(b)
    ensures a == b
  {
    hide Half, Bit0, Low, Fits;
    AllFit(a); AllFit(b);
    LowInjective(a, b, 64);
  }

  lemma ValInc(v: bv64)
    requires v != ONES
    ensures Val(Inc(v)) == Val(v) + 1
  {
    hide Half, Bit0, Low, Inc;
    LowInc(v, 64);
    if Val(Inc(v)) == 0 {
      LowZero(64);
      ValInjective(Inc(v), 0);
      IncNonZero(v);
    }
  }

  // Every word numbered between r and r with its low bits L raised agrees with r outside L.
  lemma {:induction false} LowBlock(r: bv64, x: bv64, L: bv64, n: nat)
    requires LowMask(L) && Fits(r, n) && Fits(x, n) && Fits(L, n)
    requires Low(r, n) <= Low(x, n) <= Low(Or(r, L), n)
    ensures And(x, Not(L)) == And(r, Not(L))
    decreases n
  {
    hide Half, Bit0, And, Or, Not, LowMask;
    if L == 0 {
      Zeroes(r); Zeroes(x);
      LowInjective(r, x, n);
    } else {
      LowMaskHalf(L);
      OrHalf(r, L); OrBit(r, L);
      LowBlock(Half(r), Half(x), Half(L), n - 1);
      ClearHalf(x, L); ClearHalf(r, L); ClearBit(x, L); ClearBit(r, L);
      SameHalf(And(x, Not(L)), And(r, Not(L)));
    }
  }

  lemma Block(r: bv64, x: bv64, L: bv64)
    requires LowMask(L)
    requires Val(r) <= Val(x) <= Val(Or(r, L))
    ensures And(x, Not(L)) == And(r, Not(L))
  {
    hide *;
    AllFit(r); AllFit(x); AllFit(L);
    ValLow(r); ValLow(x); ValLow(Or(r, L));
    LowBlock(r, x, L, 64);
  }

  lemma ValLow(v: bv64)
    ensures Val(v) == Low(v, 64)
  {}

  // Disjoint words add up.
  lemma {:induction false} LowOr(a: bv64, b: bv64, n: nat)
    requires And(a, b) == 0
    ensures Low(Or(a, b), n) == Low(a, n) + Low(b, n)
    decreases n
  {
    hide Half, Bit0, And, Or;
    if n != 0 {
      OrHalf(a, b); OrBit(a, b); AndHalf(a, b); Zeroes(0);
      LowOr(Half(a), Half(b), n - 1);
    }
  }

  lemma ValOr(a: bv64, b: bv64)
    requires And(a, b) == 0
    ensures Val(Or(a, b)) == Val(a) + Val(b)
  {
    hide *;
    ValLow(a); ValLow(b); ValLow(Or(a, b));
    LowOr(a, b, 64);
  }

  lemma AndBelow(v: bv64, w: bv64)
    ensures Val(And(v, w)) <= Val(w)
  {
    hide *;
    ValLow(w); ValLow(And(v, w));
    LowAnd(v, w, 64);
  }

  // Twice a number and a bit, modulo twice a divisor.
  lemma TwiceMod(x: nat, b: nat, k: nat)
    requires b <= 1 && k > 0
    ensures (2 * x + b) % (2 * k) == 2 * (x % k) + b
  {
    var q, r := x / k, x % k;
    assert 2 * x + b == (2 * k) * q + (2 * r + b);
    ModUnique(2 * x + b, 2 * k, q, 2 * r + b);
  }

  lemma ModUnique(n: nat, k: nat, q: nat, r: nat)
    requires k > 0 && r < k && n == k * q + r
    ensures n % k == r
  {
    var d := n / k - q;
    assert k * d == r - n % k;
    SmallMultiple(k, d);
  }

  lemma SmallMultiple(k: int, d: int)
    requires -k < k * d < k
    ensures d == 0
  {}

  // The bits under a run of ones are a remainder.
  lemma {:induction false} LowMod(v: bv64, m: bv64, n: nat)
    requires LowMask(m)
    ensures Low(And(v, m), n) == Low(v, n) % (Low(m, n) + 1)
    decreases n
  {
    hide Half, Bit0, And, LowMask;
    if m == 0 {
      Zeroes(v);
      LowZero(n);
    } else if n != 0 {
      AndHalf(v, m);
      LowMaskHalf(m);
      LowMod(Half(v), Half(m), n - 1);
      TwiceMod(Low(Half(v), n - 1), Bit0(v), Low(Half(m), n - 1) + 1);
    }
  }

  lemma ValMod(v: bv64, m: bv64)
    requires LowMask(m)
    ensures Val(And(v, m)) == Val(v) % (Val(m) + 1)
  {
    hide *;
    ValLow(v);
    ValLow(m);
    ValLow(And(v, m));
    LowMod(v, m, 64);
  }

  // The word of a number, by counting.
  function Word(n: nat): bv64 { if n == 0 then 0 else Inc(Word(n - 1)) }

  lemma {:induction false} WordVal(n: nat)
    requires n < Pow2(63)
    ensures Val(Word(n)) == n
    decreases n
  {
    hide Val, Inc, Pow2;
    if n == 0 {
      ValZero();
    } else {
      WordVal(n - 1);
      OnesLarge();
      ValInc(Word(n - 1));
    }
  }

  lemma OnesLarge()
    ensures Val(ONES) >= Pow2(63)
  {
    hide Val, Low, Fits, Half, Bit0, Pow2;
    if Val(ONES) < Pow2(63) {
      ValLow(ONES);
      AllFit(ONES);
      SmallFits(ONES, 63);
      FitsTop(ONES);
      TopOfOnes();
    }
  }

  lemma TopOfOnes()
    ensures Bit0(ONES >> 63) == 1
  {}

  lemma ValZero()
    ensures Val(0) == 0
  {
    LowZero(64);
  }

  // ---- powers of two ----

  predicate OneBit(i: bv64) { i != 0 && i & (i - 1) == 0 }

  function Twice(i: bv64): bv64 { i << 1 }

  function Pred(i: bv64): bv64 { i - 1 }

  lemma TwiceHalf(i: bv64)
    requires Bit0(i >> 63) == 0
    ensures Half(Twice(i)) == i && Bit0(Twice(i)) == 0
  {}

  lemma TwiceOneBit(i: bv64)
    requires OneBit(i) && Bit0(i >> 63) == 0
    ensures OneBit(Twice(i))
  {}

  lemma OneBitPred(i: bv64)
    requires OneBit(i)
    ensures LowMask(Pred(i)) && Inc(Pred(i)) == i && Pred(i) != ONES
  {}

  lemma PredVal(i: bv64)
    requires OneBit(i)
    ensures LowMask(Pred(i)) && Val(Pred(i)) + 1 == Val(i)
  {
    hide *;
    OneBitPred(i);
    ValInc(Pred(i));
  }

  function Pow2(n: nat): (p: nat) ensures p > 0 { if n == 0 then 1 else 2 * Pow2(n - 1) }

  lemma {:induction false} SmallFits(v: bv64, n: nat)
    requires Fits(v, n + 1) && Low(v, n + 1) < Pow2(n)
    ensures Fits(v, n) && Low(v, n) == Low(v, n + 1)
    decreases n
  {
    hide Half, Bit0;
    if n == 0 {
      Zeroes(0);
      assert Fits(Half(v), 0);
      assert Low(v, 1) == 2 * Low(Half(v), 0) + Bit0(v);
      SameHalf(v, 0);
    } else {
      SmallFits(Half(v), n - 1);
    }
  }

  function Half4(v: bv64): bv64 { Half(Half(Half(Half(v)))) }

  lemma Half4Shr8(v: bv64)
    ensures Half4(Half4(v)) == Shr8(v)
  {}

  lemma FitsHalf4(v: bv64, n: nat)
    requires Fits(v, n + 4)
    ensures Fits(Half4(v), n)
  {
    hide Half;
    assert Fits(Half(v), n + 3);
    assert Fits(Half(Half(v)), n + 2);
    assert Fits(Half(Half(Half(v))), n + 1);
  }

  lemma FitsDrop(v: bv64, n: nat)
    requires Fits(v, n + 8)
    ensures Fits(Shr8(v), n)
  {
    hide *;
    FitsHalf4(v, n + 4); FitsHalf4(Half4(v), n); Half4Shr8(v);
  }

  lemma FitsTop(v: bv64)
    requires Fits(v, 63)
    ensures Bit0(v >> 63) == 0
  {
    var v1 := Shr8(v); var v2 := Shr8(v1); var v3 := Shr8(v2); var v4 := Shr8(v3);
    var v5 := Shr8(v4); var v6 := Shr8(v5); var v7 := Shr8(v6);
    var w := Half4(v7);
    assert Half(Half(Half(w))) == v >> 63;
    assert Half(Half(Half(w))) == 0 by {
      hide *;
      FitsDrop(v, 55); FitsDrop(v1, 47); FitsDrop(v2, 39); FitsDrop(v3, 31);
      FitsDrop(v4, 23); FitsDrop(v5, 15); FitsDrop(v6, 7);
      FitsHalf4(v7, 3);
      FitsThree(w);
    }
  }

  lemma FitsThree(v: bv64)
    requires Fits(v, 3)
    ensures Half(Half(Half(v))) == 0
  {
    hide Half;
    assert Fits(Half(v), 2);
    assert Fits(Half(Half(v)), 1);
    assert Fits(Half(Half(Half(v))), 0);
  }

  lemma Pow2Byte(n: nat)
    ensures Pow2(n + 8) == 256 * Pow2(n)
  {
    assert Pow2(n + 2) == 4 * Pow2(n);
    assert Pow2(n + 4) == 4 * Pow2(n + 2);
    assert Pow2(n + 6) == 4 * Pow2(n + 4);
  }

  lemma Pow63()
    ensures Pow2(63) == 0x8000_0000_0000_0000
  {
    assert Pow2(7) == 128;
    hide Pow2;
    Pow2Byte(7);
    Pow2Byte(15);
    Pow2Byte(23);
    Pow2Byte(31);
    Pow2Byte(39);
    Pow2Byte(47);
    Pow2Byte(55);
  }

  lemma TwiceVal(i: bv64)
    requires OneBit(i) && Val(i) < 0x8000_0000_0000_0000
    ensures OneBit(Twice(i)) && Val(Twice(i)) == 2 * Val(i)
  {
    hide *;
    Pow63();
    ValLow(i);
    ValLow(Twice(i));
    AllFit(i);
    SmallFits(i, 63);
    FitsTop(i);
    TwiceHalf(i);
    TwiceOneBit(i);
    LowTwice(Twice(i), i);
  }

  lemma LowTwice(j: bv64, i: bv64)
    requires Half(j) == i && Bit0(j) == 0
    ensures Low(j, 64) == 2 * Low(i, 63)
  {
    hide Half, Bit0;
  }
}
