// The dense encoding: 16384 six-bit registers packed into 12288 bytes, least
// significant bits first, followed by the byte that ends every string.
module HllDense {
  import opened HllRegisters

  const DENSE_BYTES: nat := 12288

  // The packed registers and the terminator, which register accesses may touch.
  type Packed = p: seq<bv8> | |p| == DENSE_BYTES + 1 witness seq(DENSE_BYTES + 1, i => 0)

  // ---- where register i lives ----

  function Byte(i: nat): nat { i * 6 / 8 }

  function FirstBit(i: nat): bv16 {
    match i * 6 % 8 case 0 => 0 case 2 => 2 case 4 => 4 case _ => 6
  }

  // ---- one register within its two bytes ----

  function Extract(fb: bv16, b0: bv8, b1: bv8): bv8
    requires fb <= 6
  {
    ((((b0 as bv16) >> fb) | ((b1 as bv16) << (8 - fb))) & 63) as bv8
  }

  function LowByte(fb: bv16, b0: bv8, v: bv8): bv8
    requires fb <= 6 && v <= 63
  {
    ((((b0 as bv16) & !(63 << fb)) | ((v as bv16) << fb)) & 255) as bv8
  }

  function HighByte(fb: bv16, b1: bv8, v: bv8): bv8
    requires fb <= 6 && v <= 63
  {
    ((((b1 as bv16) & !(63 >> (8 - fb))) | ((v as bv16) >> (8 - fb))) & 255) as bv8
  }

  predicate Phase(fb: bv16) { fb == 0 || fb == 2 || fb == 4 || fb == 6 }

  lemma ExtractOwn(fb: bv16, b0: bv8, b1: bv8, v: bv8)
    requires Phase(fb) && v <= 63
    ensures Extract(fb, LowByte(fb, b0, v), HighByte(fb, b1, v)) == v
  {}

  lemma ExtractSame(fb: bv16, gb: bv16, b0: bv8, b1: bv8, v: bv8)
    requires (fb == 0 && gb == 6) || (fb == 6 && gb == 0)
    requires v <= 63
    ensures Extract(gb, LowByte(fb, b0, v), HighByte(fb, b1, v)) == Extract(gb, b0, b1)
  {}

  predicate Follows(fb: bv16, gb: bv16) {
    (fb == 0 && gb == 4) || (fb == 6 && gb == 4) || (fb == 4 && gb == 2) || (fb == 2 && gb == 0) || (fb == 2 && gb == 6)
  }

  lemma ExtractAfter(fb: bv16, gb: bv16, b: bv8, c: bv8, v: bv8)
    requires Follows(fb, gb) && v <= 63
    ensures Extract(gb, HighByte(fb, b, v), c) == Extract(gb, b, c)
  {}

  lemma ExtractBefore(fb: bv16, gb: bv16, a: bv8, b: bv8, v: bv8)
    requires Follows(gb, fb) && v <= 63
    ensures Extract(gb, a, LowByte(fb, b, v)) == Extract(gb, a, b)
  {}

  lemma LastHighByte(b: bv8, v: bv8)
    requires v <= 63
    ensures HighByte(2, b, v) == b
  {}

  lemma ExtractSmall(fb: bv16, b0: bv8, b1: bv8)
    requires fb <= 6
    ensures Extract(fb, b0, b1) <= 63
  {}

  lemma Place(i: nat)
    requires i < REGISTERS
    ensures Byte(i) < DENSE_BYTES && Phase(FirstBit(i))
    ensures Byte(i) == 3 * (i / 4) + (if i % 4 == 3 then 2 else if i % 4 == 2 then 1 else 0)
    ensures FirstBit(i) == if i % 4 == 0 then 0 else if i % 4 == 1 then 6 else if i % 4 == 2 then 4 else 2
  {
    var q, r := i / 4, i % 4;
    assert i * 6 == 8 * (3 * q) + 6 * r;
  }

  // ---- the packed array as an array of registers ----

  function Get(p: Packed, i: nat): bv8
    requires i < REGISTERS
  {
    Place(i);
    Extract(FirstBit(i), p[Byte(i)], p[Byte(i) + 1])
  }

  function Put(p: Packed, i: nat, v: bv8): Packed
    requires i < REGISTERS && v <= 63
  {
    Place(i);
    var n := Byte(i);
    p[n := LowByte(FirstBit(i), p[n], v)][n + 1 := HighByte(FirstBit(i), p[n + 1], v)]
  }

  // A register reads back what was stored, and no store disturbs another register.
  lemma GetPut(p: Packed, i: nat, v: bv8, j: nat)
    requires i < REGISTERS && j < REGISTERS && v <= 63
    ensures Get(Put(p, i, v), j) == if i == j then v else Get(p, j)
  {
    hide Extract, LowByte, HighByte, FirstBit, Byte;
    Place(i); Place(j);
    var n, m := Byte(i), Byte(j);
    var fb, gb := FirstBit(i), FirstBit(j);
    if i == j {
      ExtractOwn(fb, p[n], p[n + 1], v);
    } else if m == n {
      ExtractSame(fb, gb, p[n], p[n + 1], v);
    } else if m == n + 1 {
      ExtractAfter(fb, gb, p[m], p[m + 1], v);
    } else if n == m + 1 {
      ExtractBefore(fb, gb, p[m], p[m + 1], v);
    }
  }

  // The byte after the array is read and rewritten with its own value.
  lemma TerminatorKept(p: Packed, i: nat, v: bv8)
    requires i < REGISTERS && v <= 63
    ensures Put(p, i, v)[DENSE_BYTES] == p[DENSE_BYTES]
  {
    hide LowByte, HighByte, FirstBit, Byte;
    Place(i);
    LastHighByte(p[DENSE_BYTES], v);
  }

  function RegistersOf(p: Packed): Registers { seq(REGISTERS, i requires 0 <= i < REGISTERS => Get(p, i) as nat) }

  lemma PutRegisters(p: Packed, i: nat, v: bv8)
    requires i < REGISTERS && v <= 63
    ensures RegistersOf(Put(p, i, v)) == RegistersOf(p)[i := v as nat]
  {
    hide Get, Put;
    forall j | 0 <= j < REGISTERS
      ensures Get(Put(p, i, v), j) == if i == j then v else Get(p, j)
    {
      GetPut(p, i, v, j);
    }
  }

  lemma AtMost63(p: Packed, i: nat)
    requires i < REGISTERS
    ensures Get(p, i) <= 63 && (Get(p, i) as nat) <= 63
  {
    hide Extract, FirstBit, Byte;
    Place(i);
    ExtractSmall(FirstBit(i), p[Byte(i)], p[Byte(i) + 1]);
  }

  // ---- the accesses themselves ----

  method GetRegister(p: array<bv8>, i: nat) returns (target: bv8)
    requires p.Length == DENSE_BYTES + 1 && i < REGISTERS
    ensures target == Get(p[..], i) && target <= 63
  {
    Place(i);
    var byte := i * 6 / 8;
    var fb := FirstBit(i);
    var fb8 := 8 - fb;
    var b0, b1 := p[byte] as bv16, p[byte + 1] as bv16;
    target := (((b0 >> fb) | (b1 << fb8)) & 63) as bv8;
    AtMost63(p[..], i);
  }

  // The two assignments to each byte: clear the field, then or the value in.
  function ClearedLow(fb: bv16, b0: bv8): bv8
    requires fb <= 6
  {
    (b0 as bv16 & !(63 << fb) & 255) as bv8
  }

  function FilledLow(fb: bv16, b0: bv8, v: bv8): bv8
    requires fb <= 6
  {
    ((b0 as bv16 | (v as bv16 << fb)) & 255) as bv8
  }

  function ClearedHigh(fb8: bv16, b1: bv8): bv8
    requires fb8 <= 8
  {
    (b1 as bv16 & !(63 >> fb8) & 255) as bv8
  }

  function FilledHigh(fb8: bv16, b1: bv8, v: bv8): bv8
    requires fb8 <= 8
  {
    ((b1 as bv16 | (v as bv16 >> fb8)) & 255) as bv8
  }

  lemma LowSteps(fb: bv16, b0: bv8, v: bv8)
    requires fb <= 6 && v <= 63
    ensures FilledLow(fb, ClearedLow(fb, b0), v) == LowByte(fb, b0, v)
  {}

  lemma HighSteps(fb: bv16, b1: bv8, v: bv8)
    requires fb <= 6 && v <= 63
    ensures FilledHigh(8 - fb, ClearedHigh(8 - fb, b1), v) == HighByte(fb, b1, v)
  {}

  lemma Remaining(fb: bv16)
    requires fb <= 6
    ensures 8 - fb <= 8
  {}

  method SetRegister(p: array<bv8>, i: nat, v: bv8)
    requires p.Length == DENSE_BYTES + 1 && i < REGISTERS && v <= 63
    modifies p
    ensures p[..] == Put(old(p[..]), i, v)
    ensures RegistersOf(p[..]) == RegistersOf(old(p[..]))[i := v as nat]
    ensures p[DENSE_BYTES] == old(p[DENSE_BYTES])
  {
    hide RegistersOf, FirstBit, LowByte, HighByte, ClearedLow, FilledLow, ClearedHigh, FilledHigh;
    Place(i);
    var byte := i * 6 / 8;
    var fb := FirstBit(i);
    Remaining(fb);
    var fb8 := 8 - fb;
    LowSteps(fb, p[byte], v);
    HighSteps(fb, p[byte + 1], v);
    p[byte] := ClearedLow(fb, p[byte]);
    p[byte] := FilledLow(fb, p[byte], v);
    p[byte + 1] := ClearedHigh(fb8, p[byte + 1]);
    p[byte + 1] := FilledHigh(fb8, p[byte + 1], v);
    assert p[..] == Put(old(p[..]), i, v);
    PutRegisters(old(p[..]), i, v);
    TerminatorKept(old(p[..]), i, v);
  }

  method Add(p: array<bv8>, h: bv64) returns (changed: int)
    requires p.Length == DENSE_BYTES + 1
    modifies p
    ensures RegistersOf(p[..]) == Raise(RegistersOf(old(p[..])), Index(h), Run(h))
    ensures p[DENSE_BYTES] == old(p[DENSE_BYTES])
    ensures changed == if Run(h) > RegistersOf(old(p[..]))[Index(h)] then 1 else 0
  {
    hide Get, Put, Index, Run;
    var index, n := PatLen(h);
    var count := ToByte(n);
    ByteSmall(count);
    assert count <= 63;
    var oldcount := GetRegister(p, index);
    if count > oldcount {
      SetRegister(p, index, count);
      changed := 1;
    } else {
      changed := 0;
    }
  }

  // ---- the unrolled sum ----

  // The four registers in three bytes, as the unrolled loop reads them.
  function First(b0: bv8): nat { (b0 & 63) as nat }

  function Second(b0: bv8, b1: bv8): nat { ((((b0 as bv16) >> 6) | ((b1 as bv16) << 2)) & 63) as nat }

  function Third(b1: bv8, b2: bv8): nat { ((((b1 as bv16) >> 4) | ((b2 as bv16) << 4)) & 63) as nat }

  function Fourth(b2: bv8): nat { ((b2 >> 2) & 63) as nat }

  lemma FirstIs(b0: bv8, b1: bv8)
    ensures (Extract(0, b0, b1) as nat) == First(b0)
  {}

  lemma SecondIs(b0: bv8, b1: bv8)
    ensures (Extract(6, b0, b1) as nat) == Second(b0, b1)
  {}

  lemma ThirdIs(b0: bv8, b1: bv8)
    ensures (Extract(4, b0, b1) as nat) == Third(b0, b1)
  {}

  lemma FourthIs(b0: bv8, b1: bv8)
    ensures (Extract(2, b0, b1) as nat) == Fourth(b0)
  {}

  lemma FourRegisters(p: Packed, k: nat)
    requires k < REGISTERS / 4
    ensures RegistersOf(p)[4 * k] == First(p[3 * k]) < 64
    ensures RegistersOf(p)[4 * k + 1] == Second(p[3 * k], p[3 * k + 1]) < 64
    ensures RegistersOf(p)[4 * k + 2] == Third(p[3 * k + 1], p[3 * k + 2]) < 64
    ensures RegistersOf(p)[4 * k + 3] == Fourth(p[3 * k + 2]) < 64
  {
    hide Extract, First, Second, Third, Fourth, Byte, FirstBit;
    AtMost63(p, 4 * k); AtMost63(p, 4 * k + 1); AtMost63(p, 4 * k + 2); AtMost63(p, 4 * k + 3);
    Place(4 * k); Place(4 * k + 1); Place(4 * k + 2); Place(4 * k + 3);
    FirstIs(p[3 * k], p[3 * k + 1]);
    SecondIs(p[3 * k], p[3 * k + 1]);
    ThirdIs(p[3 * k + 1], p[3 * k + 2]);
    FourthIs(p[3 * k + 2], p[3 * k + 3]);
  }

  function Zero(v: nat): nat { if v == 0 then 1 else 0 }

  lemma FourMore(s: seq<nat>, n: nat)
    requires n + 4 <= |s|
    ensures SumOf(s[..n + 4]) ==
        SumOf(s[..n]) + (Weight(s[n]) + Weight(s[n + 1])) + (Weight(s[n + 2]) + Weight(s[n + 3]))
    ensures ZerosOf(s[..n + 4]) ==
        ZerosOf(s[..n]) + Zero(s[n]) + Zero(s[n + 1]) + Zero(s[n + 2]) + Zero(s[n + 3])
  {
    hide SumOf, ZerosOf, Weight;
    OneMore(s, n); OneMore(s, n + 1); OneMore(s, n + 2); OneMore(s, n + 3);
  }

  // Sixteen registers, as one round of the loop gathers them.
  predicate Window(s: seq<nat>, n: nat, w: seq<nat>) {
    n + 16 <= |s| && |w| == 16 && forall i :: 0 <= i < 16 ==> w[i] < 64 && w[i] == s[n + i]
  }

  lemma SixteenMore(s: seq<nat>, n: nat, w: seq<nat>, pe: seq<real>)
    requires Window(s, n, w) && PowerTable(pe)
    ensures SumOf(s[..n + 16]) == SumOf(s[..n])
        + (pe[w[0]] + pe[w[1]]) + (pe[w[2]] + pe[w[3]])
        + (pe[w[4]] + pe[w[5]]) + (pe[w[6]] + pe[w[7]])
        + (pe[w[8]] + pe[w[9]]) + (pe[w[10]] + pe[w[11]])
        + (pe[w[12]] + pe[w[13]]) + (pe[w[14]] + pe[w[15]])
    ensures ZerosOf(s[..n + 16]) == ZerosOf(s[..n])
        + Zero(w[0]) + Zero(w[1]) + Zero(w[2]) + Zero(w[3])
        + Zero(w[4]) + Zero(w[5]) + Zero(w[6]) + Zero(w[7])
        + Zero(w[8]) + Zero(w[9]) + Zero(w[10]) + Zero(w[11])
        + Zero(w[12]) + Zero(w[13]) + Zero(w[14]) + Zero(w[15])
  {
    hide SumOf, ZerosOf, Weight, Zero;
    FourMore(s, n); FourMore(s, n + 4); FourMore(s, n + 8); FourMore(s, n + 12);
    assert s[n + 0] == w[0] && s[n + 1] == w[1] && s[n + 2] == w[2] && s[n + 3] == w[3];
    assert s[n + 4] == w[4] && s[n + 5] == w[5] && s[n + 6] == w[6] && s[n + 7] == w[7];
    assert s[n + 8] == w[8] && s[n + 9] == w[9] && s[n + 10] == w[10] && s[n + 11] == w[11];
    assert s[n + 12] == w[12] && s[n + 13] == w[13] && s[n + 14] == w[14] && s[n + 15] == w[15];
  }

  // Four registers out of three bytes.
  function Quad(b0: bv8, b1: bv8, b2: bv8): seq<nat> { [First(b0), Second(b0, b1), Third(b1, b2), Fourth(b2)] }

  predicate FourAt(s: seq<nat>, n: nat, q: seq<nat>) {
    n + 4 <= |s| && |q| == 4 && forall i :: 0 <= i < 4 ==> q[i] < 64 && q[i] == s[n + i]
  }

  lemma QuadAt(p: Packed, k: nat)
    requires k < REGISTERS / 4
    ensures FourAt(RegistersOf(p), 4 * k, Quad(p[3 * k], p[3 * k + 1], p[3 * k + 2]))
  {
    hide RegistersOf, First, Second, Third, Fourth;
    FourRegisters(p, k);
  }

  lemma FourQuads(s: seq<nat>, n: nat, q: seq<nat>, r: seq<nat>, t: seq<nat>, u: seq<nat>)
    requires FourAt(s, n, q) && FourAt(s, n + 4, r) && FourAt(s, n + 8, t) && FourAt(s, n + 12, u)
    ensures Window(s, n, q + r + t + u)
  {
    var w := q + r + t + u;
    forall i | 0 <= i < 16 ensures w[i] < 64 && w[i] == s[n + i] {
      if i < 4 { assert w[i] == q[i]; }
      else if i < 8 { assert w[i] == r[i - 4]; }
      else if i < 12 { assert w[i] == t[i - 8]; }
      else { assert w[i] == u[i - 12]; }
    }
  }

  method ReadSixteen(r: array<bv8>, b: nat) returns (w: seq<nat>)
    requires r.Length == DENSE_BYTES + 1 && b % 12 == 0 && b < DENSE_BYTES
    ensures Window(RegistersOf(r[..]), b / 12 * 16, w)
  {
    hide RegistersOf, Quad, FourAt, Window;
    ghost var p := r[..];
    ghost var k := b / 12 * 4;
    QuadAt(p, k); QuadAt(p, k + 1); QuadAt(p, k + 2); QuadAt(p, k + 3);
    var q0, q1 := Quad(r[b], r[b + 1], r[b + 2]), Quad(r[b + 3], r[b + 4], r[b + 5]);
    var q2, q3 := Quad(r[b + 6], r[b + 7], r[b + 8]), Quad(r[b + 9], r[b + 10], r[b + 11]);
    FourQuads(RegistersOf(p), b / 12 * 16, q0, q1, q2, q3);
    w := q0 + q1 + q2 + q3;
  }

  method Sum(r: array<bv8>, pe: array<real>) returns (e: real, ez: nat)
    requires r.Length == DENSE_BYTES + 1 && PowerTable(pe[..])
    ensures e == SumOf(RegistersOf(r[..])) && ez == ZerosOf(RegistersOf(r[..]))
  {
    hide RegistersOf, SumOf, ZerosOf, Weight, Zero;
    e, ez := 0.0, 0;
    ghost var s := RegistersOf(r[..]);
    NothingSummed(s);
    var b := 0;
    for j := 0 to 1024
      invariant b == 12 * j
      invariant e == SumOf(s[..16 * j]) && ez == ZerosOf(s[..16 * j])
    {
      var w := ReadSixteen(r, b);
      SixteenMore(s, 16 * j, w, pe[..]);
      ez := ez + Zero(w[0]) + Zero(w[1]) + Zero(w[2]) + Zero(w[3]) + Zero(w[4]) + Zero(w[5]) + Zero(w[6]) + Zero(w[7])
        + Zero(w[8]) + Zero(w[9]) + Zero(w[10]) + Zero(w[11]) + Zero(w[12]) + Zero(w[13]) + Zero(w[14]) + Zero(w[15]);
      e := e + (pe[w[0]] + pe[w[1]]) + (pe[w[2]] + pe[w[3]]) + (pe[w[4]] + pe[w[5]]) +
        (pe[w[6]] + pe[w[7]]) + (pe[w[8]] + pe[w[9]]) + (pe[w[10]] + pe[w[11]]) +
        (pe[w[12]] + pe[w[13]]) + (pe[w[14]] + pe[w[15]]);
      b := b + 12;
    }
    assert s[..REGISTERS] == s;
  }

  lemma NothingSummed(s: seq<nat>)
    ensures SumOf(s[..0]) == 0.0 && ZerosOf(s[..0]) == 0
  {}
}
