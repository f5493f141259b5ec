// The internal one-byte-per-register encoding used to merge several values.
module HllRaw {
  import opened HllRegisters
  import HllDense
  import S = HllSparse

  type Raw = p: seq<bv8> | |p| == REGISTERS witness seq(REGISTERS, i => 0)

  function Num(b: bv8): nat { b as nat }

  function RegistersOf(p: Raw): Registers { seq(REGISTERS, i requires 0 <= i < REGISTERS => Num(p[i])) }

  lemma NumOf(n: nat)
    requires n < 256
    ensures Num(ToByte(n)) == n
  {}

  lemma Store(p: Raw, i: nat, b: bv8)
    requires i < REGISTERS
    ensures RegistersOf(p[i := b]) == RegistersOf(p)[i := Num(b)]
  {
    hide Num;
  }

  // The first n registers joined, the others as they were.
  function JoinUpTo(r: Registers, s: seq<nat>, n: nat): Registers
    requires n <= REGISTERS && n <= |s|
  {
    seq(REGISTERS, i requires 0 <= i < REGISTERS => if i < n then Max(r[i], s[i]) else r[i])
  }

  lemma JoinNext(r: Registers, s: seq<nat>, n: nat)
    requires n < REGISTERS && n < |s|
    ensures JoinUpTo(r, s, n)[n := Max(r[n], s[n])] == JoinUpTo(r, s, n + 1)
    ensures JoinUpTo(r, s, n)[n] == r[n]
  {}

  lemma JoinEnds(r: Registers, s: Registers)
    ensures JoinUpTo(r, s, 0) == r && JoinUpTo(r, s, REGISTERS) == Join(r, s)
  {}

  // One step of a merge: keep the larger of the two values.
  method Keep(max: array<bv8>, i: nat, regval: nat, ghost r: Registers, ghost s: seq<nat>)
    requires max.Length == REGISTERS && i < REGISTERS && i < |s| && s[i] == regval < 256
    requires RegistersOf(max[..]) == JoinUpTo(r, s, i)
    modifies max
    ensures RegistersOf(max[..]) == JoinUpTo(r, s, i + 1)
  {
    hide JoinUpTo, Num;
    JoinNext(r, s, i);
    NumOf(regval);
    Store(max[..], i, ToByte(regval));
    assert RegistersOf(max[..])[i] == Num(max[i]);
    if regval > Num(max[i]) {
      ghost var p := max[..];
      max[i] := ToByte(regval);
      assert max[..] == p[i := ToByte(regval)];
    } else {
      assert RegistersOf(max[..])[i := r[i]] == RegistersOf(max[..]);
    }
  }

  method MergeDense(max: array<bv8>, dense: array<bv8>)
    requires max.Length == REGISTERS && dense.Length == HllDense.DENSE_BYTES + 1 && max != dense
    modifies max
    ensures RegistersOf(max[..]) == Join(RegistersOf(old(max[..])), HllDense.RegistersOf(dense[..]))
  {
    hide RegistersOf, JoinUpTo, Join, Num, HllDense.Get;
    ghost var r, s := RegistersOf(max[..]), HllDense.RegistersOf(dense[..]);
    JoinEnds(r, s);
    for i := 0 to REGISTERS
      invariant RegistersOf(max[..]) == JoinUpTo(r, s, i)
    {
      var val := HllDense.GetRegister(dense, i);
      Keep(max, i, val as nat, r, s);
    }
  }

  method MergeSparse(max: array<bv8>, sparse: S.Bytes) returns (ok: bool)
    requires max.Length == REGISTERS && S.Valid(sparse)
    modifies max
    ensures ok && RegistersOf(max[..]) == Join(RegistersOf(old(max[..])), S.Expand(sparse))
  {
    hide RegistersOf, JoinUpTo, Join, Num, Repeat, S.Expand, S.WholeOps, S.Value, S.Span, S.IsZero, S.IsXZero, S.IsVal,
      S.ZeroLen, S.XZeroLen, S.ValLen, S.ValValue, S.OpLen;
    ghost var r, s := RegistersOf(max[..]), S.Expand(sparse);
    JoinEnds(r, s);
    var i: nat, p: nat := 0, 0;
    S.EmptyOps();
    assert sparse[..0] == [] && sparse[0..] == sparse && sparse[..|sparse|] == sparse;
    while p < |sparse|
      invariant 0 <= p <= |sparse| && S.WholeOps(sparse[..p]) && S.WholeOps(sparse[p..])
      invariant i == |S.Expand(sparse[..p])| <= REGISTERS
      invariant RegistersOf(max[..]) == JoinUpTo(r, s, i)
      decreases |sparse| - p
    {
      S.StepAt(sparse, p);
      SpanCovered(sparse, p);
      if S.IsZero(sparse[p]) {
        var runlen := S.ZeroLen(sparse[p]);
        JoinZeros(r, s, i, runlen);
        i := i + runlen;
        p := p + 1;
      } else if S.IsXZero(sparse[p]) {
        var runlen := S.XZeroLen(sparse[p], sparse[p + 1]);
        JoinZeros(r, s, i, runlen);
        i := i + runlen;
        p := p + 2;
      } else {
        var runlen := S.ValLen(sparse[p]);
        var regval := S.ValValue(sparse[p]);
        i := KeepRun(max, i, runlen, regval, r, s);
        p := p + 1;
      }
    }
    ok := i == REGISTERS;
  }

  method KeepRun(max: array<bv8>, start: nat, runlen: nat, regval: nat, ghost r: Registers, ghost s: Registers)
    returns (i: nat)
    requires max.Length == REGISTERS && start + runlen <= REGISTERS && regval < 256
    requires forall k :: start <= k < start + runlen ==> s[k] == regval
    requires RegistersOf(max[..]) == JoinUpTo(r, s, start)
    modifies max
    ensures i == start + runlen && RegistersOf(max[..]) == JoinUpTo(r, s, i)
  {
    hide RegistersOf, JoinUpTo;
    i := start;
    var left := runlen;
    while left > 0
      invariant 0 <= left <= runlen && i == start + runlen - left
      invariant RegistersOf(max[..]) == JoinUpTo(r, s, i)
    {
      left := left - 1;
      Keep(max, i, regval, r, s);
      i := i + 1;
    }
  }

  lemma JoinZeros(r: Registers, s: Registers, i: nat, n: nat)
    requires i + n <= REGISTERS && forall k :: i <= k < i + n ==> s[k] == 0
    ensures JoinUpTo(r, s, i + n) == JoinUpTo(r, s, i)
  {}

  lemma SpanCovered(s: S.Bytes, p: nat)
    requires p < |s| && S.WholeOps(s[..p]) && S.WholeOps(s[p..])
    requires p + S.OpLen(s[p]) <= |s|
    ensures S.WholeOps(s) && |S.Expand(s[..p])| + S.Span(s[p..]) <= |S.Expand(s)|
    ensures forall k :: |S.Expand(s[..p])| <= k < |S.Expand(s[..p])| + S.Span(s[p..]) ==>
      S.Expand(s)[k] == S.Value(s[p])
  {
    hide S.WholeOps, S.Expand, S.Value, S.Span;
    S.Split(s, p);
    S.Advance(s, p);
    S.RepeatLength(S.Value(s[p]), S.Span(s[p..]));
    var first := |S.Expand(s[..p])|;
    forall k | first <= k < first + S.Span(s[p..]) ensures S.Expand(s)[k] == S.Value(s[p]) {
      S.Covered(s, p, k - first);
    }
  }

  // ---- the sum, eight registers at a time ----

  method AddByte(b: bv8, pe: array<real>, e: real, ez: nat) returns (e': real, ez': nat)
    requires PowerTable(pe[..]) && Num(b) < 64
    ensures e' + ez' as real == e + ez as real + Weight(Num(b))
    ensures ez' == ez + HllDense.Zero(Num(b))
  {
    e', ez' := e, ez;
    ZeroNum(b);
    if b != 0 { e' := e + pe[b]; } else { ez' := ez + 1; }
  }

  lemma ZeroNum(b: bv8)
    ensures (b == 0) == (Num(b) == 0) && Weight(0) == 1.0
  {}

  predicate ZeroWord(w: seq<bv8>) { w == [0, 0, 0, 0, 0, 0, 0, 0] }

  lemma EightMore(s: seq<nat>, n: nat)
    requires n + 8 <= |s|
    ensures SumOf(s[..n + 8]) == SumOf(s[..n]) + Weight(s[n]) + Weight(s[n + 1]) + Weight(s[n + 2]) + Weight(s[n + 3])
      + Weight(s[n + 4]) + Weight(s[n + 5]) + Weight(s[n + 6]) + Weight(s[n + 7])
    ensures ZerosOf(s[..n + 8]) ==
      ZerosOf(s[..n]) + HllDense.Zero(s[n]) + HllDense.Zero(s[n + 1]) + HllDense.Zero(s[n + 2])
      + HllDense.Zero(s[n + 3]) + HllDense.Zero(s[n + 4]) + HllDense.Zero(s[n + 5]) + HllDense.Zero(s[n + 6])
      + HllDense.Zero(s[n + 7])
  {
    hide SumOf, ZerosOf, Weight, HllDense.Zero;
    HllDense.FourMore(s, n);
    HllDense.FourMore(s, n + 4);
  }

  lemma EightZeros(p: Raw, n: nat)
    requires n + 8 <= REGISTERS && ZeroWord(p[n..n + 8])
    ensures SumOf(RegistersOf(p)[..n + 8]) == SumOf(RegistersOf(p)[..n]) + 8.0
    ensures ZerosOf(RegistersOf(p)[..n + 8]) == ZerosOf(RegistersOf(p)[..n]) + 8
  {
    hide SumOf, ZerosOf, Weight;
    ZeroNum(0);
    EightMore(RegistersOf(p), n);
    assert forall i :: n <= i < n + 8 ==> p[i] == p[n..n + 8][i - n];
  }

  // One eight-byte word that is not all zeros.
  method AddWord(r: array<bv8>, w: nat, pe: array<real>, e: real, ez: nat) returns (e': real, ez': nat)
    requires r.Length == REGISTERS && w + 8 <= REGISTERS && PowerTable(pe[..])
    requires forall i :: 0 <= i < REGISTERS ==> RegistersOf(r[..])[i] < 64
    requires e + ez as real == SumOf(RegistersOf(r[..])[..w]) && ez == ZerosOf(RegistersOf(r[..])[..w])
    ensures e' + ez' as real == SumOf(RegistersOf(r[..])[..w + 8]) && ez' == ZerosOf(RegistersOf(r[..])[..w + 8])
  {
    hide Num, SumOf, ZerosOf, Weight, HllDense.Zero, PowerTable;
    EightMore(RegistersOf(r[..]), w);
    assert forall i :: w <= i < w + 8 ==> RegistersOf(r[..])[i] == Num(r[i]);
    e', ez' := AddByte(r[w], pe, e, ez);
    e', ez' := AddByte(r[w + 1], pe, e', ez');
    e', ez' := AddByte(r[w + 2], pe, e', ez');
    e', ez' := AddByte(r[w + 3], pe, e', ez');
    e', ez' := AddByte(r[w + 4], pe, e', ez');
    e', ez' := AddByte(r[w + 5], pe, e', ez');
    e', ez' := AddByte(r[w + 6], pe, e', ez');
    e', ez' := AddByte(r[w + 7], pe, e', ez');
  }

  method Sum(r: array<bv8>, pe: array<real>) returns (e: real, ez: nat)
    requires r.Length == REGISTERS && PowerTable(pe[..])
    requires forall i :: 0 <= i < REGISTERS ==> RegistersOf(r[..])[i] < 64
    ensures e == SumOf(RegistersOf(r[..])) && ez == ZerosOf(RegistersOf(r[..]))
  {
    hide RegistersOf, SumOf, ZerosOf, PowerTable, ZeroWord;
    e, ez := 0.0, 0;
    ghost var s := RegistersOf(r[..]);
    HllDense.NothingSummed(s);
    var w := 0;
    for j := 0 to REGISTERS / 8
      invariant w == 8 * j
      invariant e + ez as real == SumOf(s[..w]) && ez == ZerosOf(s[..w])
    {
      if ZeroWord(r[w..w + 8]) {
        EightZeros(r[..], w);
        ez := ez + 8;
      } else {
        e, ez := AddWord(r, w, pe, e, ez);
      }
      w := w + 8;
    }
    assert s[..REGISTERS] == s;
    e := e + ez as real;
  }
}
