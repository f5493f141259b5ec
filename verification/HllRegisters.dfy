// What a HyperLogLog stands for: 16384 registers, each the longest zero run
// seen among the hashes that select it. Every encoding is judged against this.
module HllRegisters {
  import opened Words

  const REGISTERS: nat := 16384
  const P_MASK: bv64 := 0x3FFF
  const TOP_BIT: bv64 := 0x8000_0000_0000_0000

  type Registers = r: seq<nat> | |r| == REGISTERS witness seq(REGISTERS, i => 0)

  function Empty(): Registers { seq(REGISTERS, i => 0) }

  // ---- the register and the run length of a hash ----

  // The word whose only set bit is bit k.
  function BitAt(k: nat): bv64 { if k == 0 then 1 else Twice(BitAt(k - 1)) }

  predicate Bit(h: bv64, k: nat) { And(h, BitAt(k)) != 0 }

  // The smallest number from n on that ends the run of zeros; bit 63 always ends it.
  function RunFrom(h: bv64, n: nat): (count: nat)
    requires 1 <= n <= 50
    ensures n <= count <= 50
    decreases 50 - n
  {
    if n == 50 || Bit(h, 13 + n) then n else RunFrom(h, n + 1)
  }

  function Run(h: bv64): (count: nat) ensures 1 <= count <= 50 { RunFrom(h, 1) }

  function Index(h: bv64): (i: nat) ensures i < REGISTERS {
    SmallIndex(h);
    Val(And(h, P_MASK))
  }

  // A hash selects the register that its low 14 bits number.
  lemma IndexIs(h: bv64)
    ensures Index(h) == Val(h) % REGISTERS
  {
    hide Val, And, LowMask;
    MaskVal();
    MaskOnes();
    ValMod(h, P_MASK);
  }

  lemma MaskOnes()
    ensures LowMask(P_MASK)
  {}

  // Every register is selected by some hash.
  lemma EveryRegister(i: nat) returns (h: bv64)
    requires i < REGISTERS
    ensures Val(h) == i && Index(h) == i
  {
    hide Val;
    Pow63();
    h := Word(i);
    WordVal(i);
    IndexIs(h);
  }

  lemma {:induction false} RunFromIsFirst(h: bv64, n: nat)
    requires 1 <= n <= 50
    ensures forall k :: 13 + n <= k < 13 + RunFrom(h, n) ==> !Bit(h, k)
    ensures RunFrom(h, n) < 50 ==> Bit(h, 13 + RunFrom(h, n))
    decreases 50 - n
  {
    hide Bit;
    if n < 50 && !Bit(h, 13 + n) { RunFromIsFirst(h, n + 1); }
  }

  // The run is the distance to the first set bit above the 14 index bits.
  lemma RunIsFirst(h: bv64)
    ensures forall k :: 14 <= k < 13 + Run(h) ==> !Bit(h, k)
    ensures Run(h) < 50 ==> Bit(h, 13 + Run(h))
  {
    RunFromIsFirst(h, 1);
  }

  method PatLen(h: bv64) returns (index: nat, count: nat)
    ensures index == Index(h) && count == Run(h)
  {
    hide Bit, BitAt, And, Or, Twice, Val;
    index := Val(And(h, P_MASK));
    var hash := Or(h, TOP_BIT);
    var bit: bv64 := 0x4000;
    count := 1;
    FirstBit();
    LastBit();
    while And(hash, bit) == 0
      invariant 1 <= count <= 50 && bit == BitAt(13 + count)
      invariant Run(h) == RunFrom(h, count)
      decreases 50 - count
    {
      TopOr(h);
      BitsBelowTop(h, 13 + count);
      BitStep(13 + count);
      count := count + 1;
      bit := Twice(bit);
    }
    if count < 50 { BitsBelowTop(h, 13 + count); BitDef(h, 13 + count); }
  }

  lemma BitDef(h: bv64, k: nat)
    ensures Bit(h, k) == (And(h, BitAt(k)) != 0)
  {}

  lemma BitStep(k: nat)
    ensures BitAt(k + 1) == Twice(BitAt(k))
  {}

  function Twice4(b: bv64): bv64 { Twice(Twice(Twice(Twice(b)))) }

  function Shl8(b: bv64): bv64 { b << 8 }

  lemma Twice8(b: bv64)
    ensures Twice4(Twice4(b)) == Shl8(b)
  {}

  lemma BitHalfByte(k: nat)
    ensures BitAt(k + 4) == Twice4(BitAt(k))
  {
    hide Twice;
    assert BitAt(k + 2) == Twice(Twice(BitAt(k)));
  }

  lemma BitByte(k: nat)
    ensures BitAt(k + 8) == Shl8(BitAt(k))
  {
    hide *;
    BitHalfByte(k);
    BitHalfByte(k + 4);
    Twice8(BitAt(k));
  }

  lemma FirstBit()
    ensures BitAt(14) == 0x4000
  {
    assert BitAt(2) == 4;
    assert BitAt(4) == 16;
    assert BitAt(6) == 64;
    BitByte(6);
  }

  lemma LastBit()
    ensures BitAt(63) == TOP_BIT
  {
    hide BitAt;
    FirstBit();
    BitStep(14); BitByte(15); BitByte(23); BitByte(31); BitByte(39); BitByte(47); BitByte(55);
  }

  lemma TopOr(h: bv64)
    ensures And(Or(h, TOP_BIT), TOP_BIT) != 0
  {}

  lemma TwiceMeets(h: bv64, b: bv64)
    requires OneBit(b) && Twice(b) != 0
    ensures And(Or(h, TOP_BIT), b) == And(h, b) && OneBit(Twice(b))
  {}

  lemma {:induction false} SingleBit(k: nat)
    requires k <= 63
    ensures OneBit(BitAt(k)) && (k < 63 ==> Twice(BitAt(k)) != 0)
    decreases k
  {
    hide Twice, OneBit;
    if k == 0 {
      UnitBit();
    } else {
      SingleBit(k - 1);
      TwiceMeets(0, BitAt(k - 1));
    }
    if k < 63 { NonZeroBit(k + 1); }
  }

  lemma UnitBit()
    ensures OneBit(1)
  {}

  lemma {:induction false} NonZeroBit(k: nat)
    requires k <= 63
    ensures BitAt(k) != 0
    decreases 63 - k
  {
    if k == 63 {
      LastBit();
    } else {
      NonZeroBit(k + 1);
    }
  }

  // Setting the top bit to stop the loop changes no other bit.
  lemma BitsBelowTop(h: bv64, k: nat)
    requires k < 63
    ensures (And(Or(h, TOP_BIT), BitAt(k)) != 0) == Bit(h, k)
  {
    hide OneBit, Twice, And, Or, BitAt;
    SingleBit(k);
    TwiceMeets(h, BitAt(k));
  }

  lemma MaskVal()
    ensures Val(P_MASK) == 16383
  {
    hide Val, OneBit;
    UnitBit(); UnitVal();
    TwiceVal(1); TwiceVal(2); TwiceVal(4); TwiceVal(8); TwiceVal(16); TwiceVal(32); TwiceVal(64); TwiceVal(128);
    TwiceVal(256); TwiceVal(512); TwiceVal(1024); TwiceVal(2048); TwiceVal(4096); TwiceVal(8192);
    PredVal(16384);
  }

  lemma UnitVal()
    ensures Val(1) == 1
  {
    hide Val;
    ValZero();
    ValInc(0);
  }

  lemma SmallIndex(h: bv64)
    ensures Val(And(h, P_MASK)) < REGISTERS
  {
    hide Val, And;
    MaskVal();
    AndBelow(h, P_MASK);
  }

  // ---- numbers in a byte ----

  lemma ByteInc(b: bv8)
    requires (b as nat) < 255
    ensures (b + 1) as nat == b as nat + 1
  {}

  lemma ByteSmall(b: bv8)
    ensures (b < 64) == ((b as nat) < 64)
  {}

  // The byte that holds n.
  function ToByte(n: nat): (b: bv8)
    requires n < 256
    ensures b as nat == n
  {
    if n == 0 then 0 else ByteInc(ToByte(n - 1)); ToByte(n - 1) + 1
  }

  // ---- adding an element, merging two estimators ----

  function Max(a: nat, b: nat): nat { if a >= b then a else b }

  function Raise(r: Registers, i: nat, count: nat): Registers
    requires i < REGISTERS
  {
    r[i := Max(r[i], count)]
  }

  function Join(r: Registers, s: Registers): Registers {
    seq(REGISTERS, i requires 0 <= i < REGISTERS => Max(r[i], s[i]))
  }

  // ---- the two numbers the estimate is computed from ----

  function Weight(k: nat): real { 1.0 / Pow2(k) as real }

  // A register weighs 1 when empty, and half as much with every step it rises.
  lemma WeightHalves(k: nat)
    ensures Weight(0) == 1.0 && Weight(k) == 2.0 * Weight(k + 1)
  {
    assert Pow2(k + 1) as real == 2.0 * Pow2(k) as real;
  }

  function SumOf(s: seq<nat>): real {
    if s == [] then 0.0 else SumOf(s[..|s| - 1]) + Weight(s[|s| - 1])
  }

  function ZerosOf(s: seq<nat>): nat {
    if s == [] then 0 else ZerosOf(s[..|s| - 1]) + if s[|s| - 1] == 0 then 1 else 0
  }

  lemma OneMore(s: seq<nat>, n: nat)
    requires n < |s|
    ensures SumOf(s[..n + 1]) == SumOf(s[..n]) + Weight(s[n])
    ensures ZerosOf(s[..n + 1]) == ZerosOf(s[..n]) + if s[n] == 0 then 1 else 0
  {
    hide Weight;
    assert s[..n + 1][..n] == s[..n];
  }

  function Repeat(v: nat, n: nat): seq<nat> { seq(n, i => v) }

  lemma {:induction false} SumRepeat(s: seq<nat>, v: nat, n: nat)
    ensures SumOf(s + Repeat(v, n)) == SumOf(s) + Times(n, Weight(v))
    ensures ZerosOf(s + Repeat(v, n)) == ZerosOf(s) + if v == 0 then n else 0
    decreases n
  {
    hide Weight;
    if n == 0 {
      assert s + Repeat(v, 0) == s;
    } else {
      SumRepeat(s, v, n - 1);
      var t := s + Repeat(v, n);
      assert t[..|t| - 1] == s + Repeat(v, n - 1);
    }
  }

  function Times(n: nat, w: real): real { if n == 0 then 0.0 else Times(n - 1, w) + w }

  lemma {:induction false} TimesIs(n: nat, w: real)
    ensures Times(n, w) == w * n as real
    decreases n
  {
    if n > 0 {
      TimesIs(n - 1, w);
      assert n as real == (n - 1) as real + 1.0;
      assert w * ((n - 1) as real + 1.0) == w * (n - 1) as real + w;
    }
  }

  // The table of negative powers of two that the sums look up.
  predicate PowerTable(pe: seq<real>) {
    |pe| == 64 && forall j :: 0 <= j < 64 ==> pe[j] == Weight(j)
  }

  method FillPowers() returns (pe: array<real>)
    ensures fresh(pe) && PowerTable(pe[..])
  {
    pe := new real[64];
    pe[0] := 1.0;
    var power := 1;
    for j := 1 to 64
      invariant power == Pow2(j - 1)
      invariant forall k :: 0 <= k < j ==> pe[k] == Weight(k)
    {
      power := power * 2;
      pe[j] := 1.0 / power as real;
    }
  }
}
