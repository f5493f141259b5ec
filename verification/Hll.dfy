// A HyperLogLog value: a header and either encoding. All operations are proved
// against the register array the value stands for.
module Hll {
  import opened HllRegisters
  import HllDense
  import HllRaw
  import S = HllSparse

  const HDR_SIZE: nat := 16

  datatype Encoding = Dense | Sparse

  // The opcodes of a new value, which cover all the registers with zeros
  method ZeroOps() returns (p: S.Bytes)
    ensures S.Valid(p) && S.Expand(p) == Empty() && S.Canonical(p)
  {
    p := [];
    var aux := REGISTERS;
    S.EmptyOps();
    while aux > 0
      invariant 0 <= aux <= REGISTERS
      invariant S.WholeOps(p) && S.Expand(p) == Repeat(0, REGISTERS - aux)
      invariant if aux == REGISTERS then p == [] else aux == 0 && p == S.XZeroBytes(REGISTERS)
    {
      hide S.WholeOps, S.Expand, S.XZeroBytes;
      var xzero := S.XZERO_MAX_LEN;
      if xzero > aux { xzero := aux; }
      S.TwoBytes(xzero);
      S.ZeroRunIs(xzero);
      S.Concat(p, S.XZeroBytes(xzero));
      assert [] + S.XZeroBytes(xzero) == S.XZeroBytes(xzero);
      p := p + S.XZeroBytes(xzero);
      aux := aux - xzero;
    }
    assert |p| == (REGISTERS + (S.XZERO_MAX_LEN - 1)) / S.XZERO_MAX_LEN * 2;
    FirstOpcode(p);
  }

  class Hll {
    var encoding: Encoding
    var sparse: S.Bytes          // the data bytes while the encoding is sparse
    var dense: array<bv8>        // the packed registers once it is dense
    var cacheValid: bool         // the cached cardinality may be used

    predicate Valid()
      reads this, dense
    {
      match encoding
      case Sparse => S.Valid(sparse)
      case Dense => dense.Length == HllDense.DENSE_BYTES + 1 && dense[HllDense.DENSE_BYTES] == 0
    }

    ghost function View(): Registers
      reads this, dense
      requires Valid()
    {
      match encoding
      case Sparse => S.Expand(sparse)
      case Dense => HllDense.RegistersOf(dense[..])
    }

    // createHLLObject
    constructor ()
      ensures Valid() && encoding == Sparse && cacheValid && View() == Empty() && fresh(dense) && S.Canonical(sparse)
    {
      encoding, cacheValid := Sparse, true;
      var p := ZeroOps();
      sparse := p;
      dense := new bv8[0];
    }

    // hllSparseToDense
    method ToDense() returns (ok: bool)
      requires Valid()
      modifies this
      ensures ok && Valid() && encoding == Dense
      ensures View() == old(View()) && cacheValid == old(cacheValid)
      ensures if old(encoding) == Dense then dense == old(dense) && dense[..] == old(dense[..]) else fresh(dense)
    {
      hide HllDense.RegistersOf, S.Expand, S.WholeOps;
      if encoding == Dense { return true; }
      var r := new bv8[HllDense.DENSE_BYTES + 1](i => 0);
      var idx := Fill(r, sparse);
      if idx != REGISTERS { return false; }
      encoding, dense, sparse := Dense, r, [];
      ok := true;
    }

    // hllSparseAdd, from its promote label on
    method Promote(h: bv64) returns (changed: int)
      requires Valid() && encoding == Sparse && Run(h) > View()[Index(h)]
      modifies this
      ensures Valid() && View() == Raise(old(View()), Index(h), Run(h))
      ensures changed == 1 && encoding == Dense && fresh(dense) && cacheValid == old(cacheValid)
    {
      hide HllDense.RegistersOf, S.Expand, S.WholeOps, Index, Run;
      var ok := ToDense();
      if !ok { return -1; }
      changed := HllDense.Add(dense, h);
      assert changed == 1;
    }

    // hllSparseAdd
    method SparseAdd(h: bv64, maxBytes: nat) returns (changed: int)
      requires Valid() && encoding == Sparse
      modifies this
      ensures Valid() && View() == Raise(old(View()), Index(h), Run(h))
      ensures changed == if Run(h) > old(View())[Index(h)] then 1 else 0
      ensures encoding == Sparse ==> dense == old(dense) && |sparse| <= |old(sparse)| + 3
      ensures encoding == Sparse && |sparse| > |old(sparse)| ==> HDR_SIZE + |sparse| <= maxBytes
      // The value becomes dense exactly when the count does not fit in an opcode, or the new opcodes in the limit.
      ensures var grows := S.Growth(old(sparse), Index(h));
        encoding == Dense <==>
          Run(h) > S.VAL_MAX_VALUE
          || (Run(h) > old(View())[Index(h)] && grows > 0 && HDR_SIZE + |old(sparse)| + grows > maxBytes)
      ensures encoding == Dense ==>
        fresh(dense) && (Run(h) > S.VAL_MAX_VALUE || HDR_SIZE + |old(sparse)| + 3 > maxBytes)
      ensures changed == 0 ==> cacheValid == old(cacheValid) && encoding == Sparse && sparse == old(sparse)
      ensures changed == 1 ==> cacheValid == (encoding == Dense && old(cacheValid))
      ensures encoding == Sparse && S.Canonical(old(sparse)) ==> S.Canonical(sparse)
    {
      hide S.Expand, S.WholeOps, S.Canonical, S.Growth, Index, Run, HllDense.RegistersOf;
      var index, count := PatLen(h);
      if count > S.VAL_MAX_VALUE {
        SparseAtMost(sparse, index);
        changed := Promote(h);
        return;
      }
      var outcome := S.Rewrite(sparse, index, count, maxBytes - HDR_SIZE);
      match outcome {
        case Unchanged =>
          RaiseNothing(View(), index, count);
          changed := 0;
        case TooLong =>
          changed := Promote(h);
        case Updated(s) =>
          sparse := s;
          cacheValid := false;
          changed := 1;
      }
    }

    // hllAdd
    method Add(h: bv64, maxBytes: nat) returns (changed: int)
      requires Valid()
      modifies this, dense
      ensures Valid() && View() == Raise(old(View()), Index(h), Run(h))
      ensures changed == if Run(h) > old(View())[Index(h)] then 1 else 0
      ensures dense == old(dense) || fresh(dense)
      ensures changed == 0 ==> cacheValid == old(cacheValid)
      ensures encoding == Sparse ==> old(encoding) == Sparse && (S.Canonical(old(sparse)) ==> S.Canonical(sparse))
    {
      hide HllDense.RegistersOf, S.Expand, S.WholeOps, S.Canonical, Index, Run;
      match encoding {
        case Dense => changed := HllDense.Add(dense, h);
        case Sparse => changed := SparseAdd(h, maxBytes);
      }
    }

    // hllMerge
    method MergeInto(max: array<bv8>) returns (ok: bool)
      requires Valid() && max.Length == REGISTERS && max != dense
      modifies max
      ensures ok && HllRaw.RegistersOf(max[..]) == Join(HllRaw.RegistersOf(old(max[..])), View())
    {
      hide HllDense.RegistersOf, S.Expand, S.WholeOps, HllRaw.RegistersOf, Join;
      match encoding {
        case Dense =>
          HllRaw.MergeDense(max, dense);
          ok := true;
        case Sparse =>
          ok := HllRaw.MergeSparse(max, sparse);
      }
    }

    // The sum hllCount starts from, by encoding.
    method Sum(pe: array<real>) returns (e: real, ez: nat, invalid: bool)
      requires Valid() && PowerTable(pe[..])
      ensures e == SumOf(View()) && ez == ZerosOf(View()) && !invalid
    {
      hide HllDense.RegistersOf, S.Expand, S.WholeOps, SumOf, ZerosOf;
      match encoding {
        case Dense =>
          e, ez := HllDense.Sum(dense, pe);
          invalid := false;
        case Sparse =>
          e, ez, invalid := S.Sum(sparse, pe);
      }
    }

    lemma Below64(i: nat)
      requires Valid() && i < REGISTERS
      ensures View()[i] < 64
    {
      match encoding {
        case Dense => HllDense.AtMost63(dense[..], i);
        case Sparse => SparseAtMost(sparse, i);
      }
    }
  }

  // A single XZERO opcode leaves nothing to merge.
  lemma FirstOpcode(p: S.Bytes)
    requires p == S.XZeroBytes(REGISTERS)
    ensures |p| == 2 && S.Canonical(p)
  {
    hide S.XZeroLen;
    S.ReadXZero(REGISTERS);
    S.ThreeKinds(p[0]);
  }

  lemma RaiseNothing(r: Registers, i: nat, count: nat)
    requires i < REGISTERS && r[i] >= count
    ensures Raise(r, i, count) == r
  {}

  // No sparse register exceeds what a VAL opcode can hold.
  lemma {:induction false} SparseAtMost(s: S.Bytes, i: nat)
    requires S.WholeOps(s) && i < |S.Expand(s)|
    ensures S.Expand(s)[i] <= S.VAL_MAX_VALUE
    decreases |s|
  {
    hide S.Value, S.Span, S.OpLen, Repeat;
    if s != [] {
      S.RepeatLength(S.Value(s[0]), S.Span(s));
      if i >= S.Span(s) {
        SparseAtMost(s[S.OpLen(s[0])..], i - S.Span(s));
      } else {
        RepeatValue(S.Value(s[0]), S.Span(s), i);
      }
    }
  }

  lemma RepeatValue(v: nat, n: nat, i: nat)
    requires i < n
    ensures |Repeat(v, n)| == n && Repeat(v, n)[i] == v
  {}

  function Padded(s: seq<nat>): seq<nat> { if |s| <= REGISTERS then s + Repeat(0, REGISTERS - |s|) else s }

  lemma FreshRegisters(p: HllDense.Packed)
    requires forall i :: 0 <= i < |p| ==> p[i] == 0
    ensures HllDense.RegistersOf(p) == Padded([])
  {
  }

  lemma PadZeros(s: seq<nat>, n: nat)
    requires |s| + n <= REGISTERS
    ensures Padded(s + Repeat(0, n)) == Padded(s)
  {}

  lemma PadOne(s: seq<nat>, v: nat, k: nat)
    requires |s| + k < REGISTERS
    ensures |Padded(s + Repeat(v, k))| == REGISTERS
    ensures Padded(s + Repeat(v, k))[|s| + k := v] == Padded(s + Repeat(v, k + 1))
  {}

  lemma PadFull(s: seq<nat>)
    requires |s| == REGISTERS
    ensures Padded(s) == s
  {}

  lemma NoRepeat(s: seq<nat>, v: nat)
    ensures s + Repeat(v, 0) == s
  {}

  // The loop of hllSparseToDense over the opcodes
  method Fill(r: array<bv8>, sparse: S.Bytes) returns (idx: nat)
    requires r.Length == HllDense.DENSE_BYTES + 1 && (forall i :: 0 <= i < r.Length ==> r[i] == 0) && S.Valid(sparse)
    modifies r
    ensures idx == REGISTERS && r[HllDense.DENSE_BYTES] == 0
    ensures HllDense.RegistersOf(r[..]) == S.Expand(sparse)
  {
    hide HllDense.RegistersOf, S.Expand, S.WholeOps, Repeat, S.Value, S.IsZero, S.IsXZero, S.IsVal, S.ZeroLen,
      S.XZeroLen, S.ValLen, S.ValValue, S.OpLen, S.Span, Padded;
    FreshRegisters(r[..]);
    idx := 0;
    var p: nat := 0;
    S.EmptyOps();
    assert sparse[..0] == [] && sparse[0..] == sparse && sparse[..|sparse|] == sparse;
    while p < |sparse|
      invariant 0 <= p <= |sparse| && S.WholeOps(sparse[..p]) && S.WholeOps(sparse[p..])
      invariant idx == |S.Expand(sparse[..p])|
      invariant r[HllDense.DENSE_BYTES] == 0
      invariant HllDense.RegistersOf(r[..]) == Padded(S.Expand(sparse[..p]))
      decreases |sparse| - p
    {
      ghost var s := S.Expand(sparse[..p]);
      S.StepAt(sparse, p);
      if S.IsZero(sparse[p]) {
        PadZeros(s, S.ZeroLen(sparse[p]));
        idx := idx + S.ZeroLen(sparse[p]);
        p := p + 1;
      } else if S.IsXZero(sparse[p]) {
        PadZeros(s, S.XZeroLen(sparse[p], sparse[p + 1]));
        idx := idx + S.XZeroLen(sparse[p], sparse[p + 1]);
        p := p + 2;
      } else {
        var runlen := S.ValLen(sparse[p]);
        var regval := S.ValValue(sparse[p]);
        idx := SetRun(r, idx, runlen, regval, s);
        p := p + 1;
      }
    }
    PadFull(S.Expand(sparse));
  }

  // The inner loop that stores one run of a non-zero value.
  method SetRun(r: array<bv8>, idx: nat, runlen: nat, regval: nat, ghost s: seq<nat>) returns (end: nat)
    requires r.Length == HllDense.DENSE_BYTES + 1 && r[HllDense.DENSE_BYTES] == 0
    requires idx == |s| && idx + runlen <= REGISTERS && regval <= S.VAL_MAX_VALUE
    requires HllDense.RegistersOf(r[..]) == Padded(s)
    modifies r
    ensures end == idx + runlen && r[HllDense.DENSE_BYTES] == 0
    ensures HllDense.RegistersOf(r[..]) == Padded(s + Repeat(regval, runlen))
  {
    hide HllDense.RegistersOf, HllDense.Put, Padded, Repeat;
    end := idx;
    var left := runlen;
    NoRepeat(s, regval);
    while left > 0
      invariant 0 <= left <= runlen && end == idx + runlen - left
      invariant r[HllDense.DENSE_BYTES] == 0
      invariant HllDense.RegistersOf(r[..]) == Padded(s + Repeat(regval, runlen - left))
    {
      left := left - 1;
      ByteSmall(ToByte(regval));
      PadOne(s, regval, end - idx);
      HllDense.SetRegister(r, end, ToByte(regval));
      end := end + 1;
    }
  }
}
