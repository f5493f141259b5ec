// The sparse encoding: a run-length byte code for the 16384 registers.
// ZERO 00xxxxxx is up to 64 zero registers, XZERO 01xxxxxx yyyyyyyy up to 16384,
// VAL 1vvvvvxx up to four registers holding the same value of at most 32.
module HllSparse {
  import opened HllRegisters

  type Bytes = seq<bv8>

  const VAL_MAX_VALUE: nat := 32
  const VAL_MAX_LEN: nat := 4
  const ZERO_MAX_LEN: nat := 64
  const XZERO_MAX_LEN: nat := 16384

  // ---- reading an opcode ----

  predicate IsZero(b: bv8) { b & 0xC0 == 0 }

  predicate IsXZero(b: bv8) { b & 0xC0 == 0x40 }

  predicate IsVal(b: bv8) { b & 0x80 != 0 }

  function ZeroLen(b: bv8): (n: nat) ensures 1 <= n <= ZERO_MAX_LEN { (b & 0x3F) as nat + 1 }

  function XZeroLen(b: bv8, c: bv8): (n: nat)
    ensures 1 <= n <= XZERO_MAX_LEN
  {
    ((((b & 0x3F) as bv16) << 8) | (c as bv16)) as nat + 1
  }

  function ValValue(b: bv8): (n: nat) ensures 1 <= n <= VAL_MAX_VALUE { ((b >> 2) & 0x1F) as nat + 1 }

  function ValLen(b: bv8): (n: nat) ensures 1 <= n <= VAL_MAX_LEN { (b & 3) as nat + 1 }

  // ---- writing an opcode ----

  function ValByte(value: nat, len: nat): bv8
    requires 1 <= value <= VAL_MAX_VALUE && 1 <= len <= VAL_MAX_LEN
  {
    (ToByte(value - 1) << 2) | ToByte(len - 1) | 0x80
  }

  function ZeroByte(len: nat): bv8
    requires 1 <= len <= ZERO_MAX_LEN
  {
    ToByte(len - 1)
  }

  function XZeroBytes(len: nat): Bytes
    requires 1 <= len <= XZERO_MAX_LEN
  {
    [ToByte((len - 1) / 256) | 0x40, ToByte((len - 1) % 256)]
  }

  lemma ThreeKinds(b: bv8)
    ensures IsZero(b) || IsXZero(b) || IsVal(b)
    ensures !(IsZero(b) && IsXZero(b)) && !(IsZero(b) && IsVal(b)) && !(IsXZero(b) && IsVal(b))
  {}

  lemma ValFields(x: bv8, y: bv8)
    requires (x as nat) < 32 && (y as nat) < 4
    ensures IsVal((x << 2) | y | 0x80)
    ensures ValValue((x << 2) | y | 0x80) == x as nat + 1 && ValLen((x << 2) | y | 0x80) == y as nat + 1
  {}

  lemma ReadVal(value: nat, len: nat)
    requires 1 <= value <= VAL_MAX_VALUE && 1 <= len <= VAL_MAX_LEN
    ensures IsVal(ValByte(value, len)) && ValValue(ValByte(value, len)) == value && ValLen(ValByte(value, len)) == len
  {
    hide IsVal, ValValue, ValLen, ToByte;
    ValFields(ToByte(value - 1), ToByte(len - 1));
  }

  lemma ZeroField(b: bv8)
    requires (b as nat) < 64
    ensures IsZero(b) && ZeroLen(b) == b as nat + 1
  {}

  lemma ReadZero(len: nat)
    requires 1 <= len <= ZERO_MAX_LEN
    ensures IsZero(ZeroByte(len)) && ZeroLen(ZeroByte(len)) == len
  {
    hide IsZero, ZeroLen, ToByte;
    ZeroField(ToByte(len - 1));
  }

  lemma TwoByteLength(hi: bv8, lo: bv8)
    requires hi < 64
    ensures IsXZero(hi | 0x40) && XZeroLen(hi | 0x40, lo) == 256 * (hi as nat) + (lo as nat) + 1
  {}

  lemma ReadXZero(len: nat)
    requires 1 <= len <= XZERO_MAX_LEN
    ensures IsXZero(XZeroBytes(len)[0]) && XZeroLen(XZeroBytes(len)[0], XZeroBytes(len)[1]) == len
  {
    hide IsXZero, XZeroLen, ToByte;
    var hi, lo := (len - 1) / 256, (len - 1) % 256;
    ByteSmall(ToByte(hi));
    TwoByteLength(ToByte(hi), ToByte(lo));
  }

  // ---- what a byte string stands for ----

  function OpLen(b: bv8): (n: nat) ensures 1 <= n <= 2 { if IsXZero(b) then 2 else 1 }

  // The string is a sequence of whole opcodes.
  predicate WholeOps(s: Bytes) {
    s == [] || (OpLen(s[0]) <= |s| && WholeOps(s[OpLen(s[0])..]))
  }

  function Span(s: Bytes): (n: nat)
    requires s != [] && OpLen(s[0]) <= |s|
    ensures n >= 1
  {
    if IsZero(s[0]) then ZeroLen(s[0]) else if IsXZero(s[0]) then XZeroLen(s[0], s[1]) else ValLen(s[0])
  }

  function Value(b: bv8): (v: nat) ensures v <= VAL_MAX_VALUE { if IsVal(b) then ValValue(b) else 0 }

  function Expand(s: Bytes): seq<nat>
    requires WholeOps(s)
  {
    if s == [] then [] else Repeat(Value(s[0]), Span(s)) + Expand(s[OpLen(s[0])..])
  }

  predicate Valid(s: Bytes) { WholeOps(s) && |Expand(s)| == REGISTERS }

  lemma {:induction false} Concat(s: Bytes, t: Bytes)
    requires WholeOps(s)
    ensures WholeOps(s + t) == WholeOps(t)
    ensures WholeOps(t) ==> Expand(s + t) == Expand(s) + Expand(t)
    decreases |s|
  {
    hide OpLen, Value, Span, Repeat;
    if s == [] {
      assert s + t == t;
    } else {
      var n := OpLen(s[0]);
      assert (s + t)[n..] == s[n..] + t;
      Concat(s[n..], t);
      SpanPrefix(s, t);
      assert (s + t)[0] == s[0];
    }
  }

  lemma SpanPrefix(s: Bytes, t: Bytes)
    requires s != [] && OpLen(s[0]) <= |s|
    ensures Span(s + t) == Span(s)
  {
    hide XZeroLen;
  }

  // The first opcode of s, and what follows it.
  lemma OneOp(s: Bytes)
    requires s != [] && WholeOps(s)
    ensures OpLen(s[0]) <= |s| && WholeOps(s[..OpLen(s[0])]) && WholeOps(s[OpLen(s[0])..])
    ensures Expand(s[..OpLen(s[0])]) == Repeat(Value(s[0]), Span(s))
    ensures Expand(s) == Repeat(Value(s[0]), Span(s)) + Expand(s[OpLen(s[0])..])
  {
    hide *;
    FirstOp(s);
    var n := OpLen(s[0]);
    var t := s[..n];
    SingleOp(t);
    assert t + s[n..] == s && t[0] == s[0];
    SpanPrefix(t, s[n..]);
  }

  lemma FirstOp(s: Bytes)
    requires s != [] && WholeOps(s)
    ensures OpLen(s[0]) <= |s| && WholeOps(s[OpLen(s[0])..])
    ensures Expand(s) == Repeat(Value(s[0]), Span(s)) + Expand(s[OpLen(s[0])..])
  {
    hide OpLen, Value, Repeat, Span;
  }

  lemma SingleOp(t: Bytes)
    requires t != [] && OpLen(t[0]) == |t|
    ensures WholeOps(t) && Expand(t) == Repeat(Value(t[0]), Span(t))
  {
    hide OpLen, Value, Repeat, Span;
    assert t[|t|..] == [];
    assert Expand(t) == Repeat(Value(t[0]), Span(t)) + [];
  }

  // Stepping over the opcode at p.
  lemma Advance(s: Bytes, p: nat)
    requires p < |s| && WholeOps(s[..p]) && WholeOps(s[p..])
    ensures p + OpLen(s[p]) <= |s|
    ensures WholeOps(s[..p + OpLen(s[p])]) && WholeOps(s[p + OpLen(s[p])..])
    ensures Expand(s[..p + OpLen(s[p])]) == Expand(s[..p]) + Repeat(Value(s[p]), Span(s[p..]))
    ensures Expand(s[p..]) == Repeat(Value(s[p]), Span(s[p..])) + Expand(s[p + OpLen(s[p])..])
  {
    hide OpLen, Value, Repeat, Span, WholeOps, Expand;
    var t := s[p..];
    assert t[0] == s[p];
    NonEmptyOps(t);
    OneOp(t);
    var n := OpLen(s[p]);
    assert s[..p + n] == s[..p] + t[..n];
    assert t[n..] == s[p + n..];
    Concat(s[..p], t[..n]);
  }

  lemma NonEmptyOps(s: Bytes)
    requires s != [] && WholeOps(s)
    ensures OpLen(s[0]) <= |s|
  {}

  lemma Split(s: Bytes, p: nat)
    requires p <= |s| && WholeOps(s[..p]) && WholeOps(s[p..])
    ensures WholeOps(s) && Expand(s) == Expand(s[..p]) + Expand(s[p..])
  {
    assert s[..p] + s[p..] == s;
    Concat(s[..p], s[p..]);
  }

  // What each kind of opcode at p stands for.
  lemma KindOf(s: Bytes, p: nat)
    requires p < |s| && p + OpLen(s[p]) <= |s|
    ensures IsZero(s[p]) ==> OpLen(s[p]) == 1 && Value(s[p]) == 0 && Span(s[p..]) == ZeroLen(s[p])
    ensures IsXZero(s[p]) ==> OpLen(s[p]) == 2 && Value(s[p]) == 0 && Span(s[p..]) == XZeroLen(s[p], s[p + 1])
    ensures IsVal(s[p]) ==> OpLen(s[p]) == 1 && Value(s[p]) == ValValue(s[p]) && Span(s[p..]) == ValLen(s[p])
  {
    hide IsZero, IsXZero, IsVal, ZeroLen, XZeroLen, ValLen;
    ThreeKinds(s[p]);
  }

  // Everything a loop over the opcodes needs to know when it stands at p.
  lemma StepAt(s: Bytes, p: nat)
    requires p < |s| && WholeOps(s[..p]) && WholeOps(s[p..])
    ensures WholeOps(s) && p + OpLen(s[p]) <= |s| && |Expand(s[..p])| + Span(s[p..]) <= |Expand(s)|
    ensures WholeOps(s[..p + OpLen(s[p])]) && WholeOps(s[p + OpLen(s[p])..])
    ensures Expand(s[..p + OpLen(s[p])]) == Expand(s[..p]) + Repeat(Value(s[p]), Span(s[p..]))
    ensures |Expand(s[..p + OpLen(s[p])])| == |Expand(s[..p])| + Span(s[p..])
    ensures IsZero(s[p]) ==> OpLen(s[p]) == 1 && Value(s[p]) == 0 && Span(s[p..]) == ZeroLen(s[p])
    ensures IsXZero(s[p]) ==> OpLen(s[p]) == 2 && Value(s[p]) == 0 && Span(s[p..]) == XZeroLen(s[p], s[p + 1])
    ensures !IsZero(s[p]) && !IsXZero(s[p]) ==>
      IsVal(s[p]) && OpLen(s[p]) == 1 && Value(s[p]) == ValValue(s[p]) && Span(s[p..]) == ValLen(s[p])
  {
    hide *;
    Advance(s, p);
    Split(s, p);
    ThreeKinds(s[p]);
    KindOf(s, p);
    RepeatLength(Value(s[p]), Span(s[p..]));
  }

  lemma EmptyOps()
    ensures WholeOps([]) && Expand([]) == []
  {}

  // ---- single opcodes ----

  lemma OneVal(value: nat, len: nat)
    requires 1 <= value <= VAL_MAX_VALUE && 1 <= len <= VAL_MAX_LEN
    ensures WholeOps([ValByte(value, len)]) && Expand([ValByte(value, len)]) == Repeat(value, len)
    ensures OpCount([ValByte(value, len)]) == 1
  {
    hide ValByte, IsVal, IsZero, IsXZero, ValValue, ValLen, Repeat;
    ReadVal(value, len);
    var s := [ValByte(value, len)];
    ThreeKinds(s[0]);
    assert s[1..] == [];
  }

  // ---- step 1: find the opcode that covers a register ----

  method Locate(s: Bytes, index: nat) returns (p: nat, first: nat, span: nat, prev: int)
    requires Valid(s) && index < REGISTERS
    ensures p < |s| && WholeOps(s[..p]) && WholeOps(s[p..])
    ensures |Expand(s[..p])| == first <= index < first + span
    ensures p + OpLen(s[p]) <= |s| && span == Span(s[p..])
    ensures if p == 0 then prev == -1 else 0 <= prev < p && WholeOps(s[..prev]) && prev + OpLen(s[prev]) == p
  {
    hide Value, Repeat, WholeOps, Expand, IsZero, IsXZero, IsVal, ZeroLen, XZeroLen, ValLen;
    p, first, span, prev := 0, 0, 0, -1;
    EmptyOps();
    assert s[..0] == [] && s[0..] == s && s[..|s|] == s;
    while p < |s|
      invariant p <= |s| && WholeOps(s[..p]) && WholeOps(s[p..])
      invariant |Expand(s[..p])| == first <= index
      invariant if p == 0 then prev == -1 else 0 <= prev < p && WholeOps(s[..prev]) && prev + OpLen(s[prev]) == p
    {
      Advance(s, p);
      ThreeKinds(s[p]);
      RepeatLength(Value(s[p]), Span(s[p..]));
      var oplen := 1;
      if IsZero(s[p]) {
        span := ZeroLen(s[p]);
      } else if IsVal(s[p]) {
        span := ValLen(s[p]);
      } else {
        span := XZeroLen(s[p], s[p + 1]);
        oplen := 2;
      }
      if index <= first + span - 1 { return; }
      prev := p;
      p := p + oplen;
      first := first + span;
    }
  }

  lemma RepeatLength(v: nat, n: nat)
    ensures |Repeat(v, n)| == n
  {}

  // ---- case D: split the opcode that covers the register ----

  // A run of zeros, as one ZERO or one XZERO opcode.
  function ZeroRun(len: nat): Bytes
    requires 1 <= len <= XZERO_MAX_LEN
  {
    if len > ZERO_MAX_LEN then XZeroBytes(len) else [ZeroByte(len)]
  }

  lemma ZeroRunIs(len: nat)
    requires 1 <= len <= XZERO_MAX_LEN
    ensures WholeOps(ZeroRun(len)) && Expand(ZeroRun(len)) == Repeat(0, len)
    ensures |ZeroRun(len)| == (if len > ZERO_MAX_LEN then 2 else 1) && OpCount(ZeroRun(len)) == 1
  {
    hide ZeroByte, XZeroBytes, IsVal, IsZero, IsXZero, ZeroLen, XZeroLen, Repeat;
    var s := ZeroRun(len);
    if len > ZERO_MAX_LEN {
      assert |XZeroBytes(len)| == 2 by { TwoBytes(len); }
      ReadXZero(len);
      ThreeKinds(s[0]);
      assert s[2..] == [];
    } else {
      ReadZero(len);
      ThreeKinds(s[0]);
      assert s[1..] == [];
    }
  }

  lemma TwoBytes(len: nat)
    requires 1 <= len <= XZERO_MAX_LEN
    ensures |XZeroBytes(len)| == 2
  {}

  // The bytes of the shortest opcode for a run of zeros
  function ZeroBytes(len: nat): nat { if len == 0 then 0 else if len <= ZERO_MAX_LEN then 1 else 2 }

  // How many bytes an opcode grows by when register k of its run is set apart: there is
  // an opcode for that register, and one for what is left of the run on either side.
  function OpGrowth(s: Bytes, k: nat): int
    requires s != [] && OpLen(s[0]) <= |s| && k < Span(s)
  {
    var after := Span(s) - 1 - k;
    if IsVal(s[0]) then (if k == 0 then 0 else 1) + (if after == 0 then 0 else 1)
    else 1 + ZeroBytes(k) + ZeroBytes(after) - OpLen(s[0])
  }

  // The same for the opcode whose run holds the register of that index
  function Growth(s: Bytes, index: nat): int
    requires WholeOps(s) && index < |Expand(s)|
  {
    if index < Span(s) then OpGrowth(s, index) else Growth(s[OpLen(s[0])..], index - Span(s))
  }

  lemma {:induction false} GrowthIs(s: Bytes, p: nat, index: nat)
    requires p < |s| && WholeOps(s[..p]) && WholeOps(s[p..])
    requires p + OpLen(s[p]) <= |s| && |Expand(s[..p])| <= index < |Expand(s[..p])| + Span(s[p..])
    ensures WholeOps(s) && index < |Expand(s)|
    ensures Growth(s, index) == OpGrowth(s[p..], index - |Expand(s[..p])|)
    decreases p
  {
    hide Span, OpLen, Value, Repeat, OpGrowth;
    Covered(s, p, index - |Expand(s[..p])|);
    if p == 0 {
      assert s[0..] == s;
    } else {
      hide WholeOps, Expand;
      GrowthRest(s, p, index);
    }
  }

  lemma GrowthRest(s: Bytes, p: nat, index: nat)
    requires 0 < p < |s| && WholeOps(s[..p]) && WholeOps(s[p..]) && WholeOps(s)
    requires p + OpLen(s[p]) <= |s| && |Expand(s[..p])| <= index < |Expand(s[..p])| + Span(s[p..])
    requires index < |Expand(s)|
    ensures Growth(s, index) == OpGrowth(s[p..], index - |Expand(s[..p])|)
    decreases p, 0
  {
    hide Span, OpLen, Value, OpGrowth, Growth, WholeOps, Expand;
    var n := OpLen(s[0]);
    var u := s[..p];
    var t := s[n..];
    FirstOp(u);
    FirstOp(s);
    SameSpan(u, s);
    assert u[n..] == t[..p - n] && s[p..] == t[p - n..] && t[p - n] == s[p];
    GrowthIs(t, p - n, index - Span(s));
    GrowthStep(s, index);
  }

  lemma GrowthStep(s: Bytes, index: nat)
    requires WholeOps(s) && index < |Expand(s)|
    requires s != [] && OpLen(s[0]) <= |s| && index >= Span(s)
    ensures WholeOps(s[OpLen(s[0])..]) && index - Span(s) < |Expand(s[OpLen(s[0])..])|
    ensures Growth(s, index) == Growth(s[OpLen(s[0])..], index - Span(s))
  {
    hide OpLen, Span, Value, OpGrowth;
  }

  lemma SameSpan(s: Bytes, t: Bytes)
    requires s != [] && OpLen(s[0]) <= |s| && s <= t
    ensures Span(s) == Span(t)
  {
    hide IsZero, IsXZero, ZeroLen, XZeroLen, ValLen;
    ThreeKinds(s[0]);
  }

  method SplitZeros(first: nat, span: nat, index: nat, count: nat) returns (n: Bytes)
    requires first <= index < first + span <= first + XZERO_MAX_LEN && 1 <= count <= VAL_MAX_VALUE
    ensures WholeOps(n) && Expand(n) == Repeat(0, span)[index - first := count]
    ensures |n| == 1 + ZeroBytes(index - first) + ZeroBytes(first + span - 1 - index)
    ensures |n| <= 5 && (span <= ZERO_MAX_LEN ==> |n| <= 3) && OpCount(n) <= 3
  {
    hide WholeOps, Expand, ValByte, ZeroRun, OpCount;
    NoOps();
    var last := first + span - 1;
    n := [];
    EmptyOps();
    if index != first {
      var len := index - first;
      n := n + ZeroRun(len);
      ZeroRunIs(len);
      assert n == ZeroRun(len);
    }
    ghost var before := n;
    n := n + [ValByte(count, 1)];
    OneVal(count, 1);
    Concat(before, [ValByte(count, 1)]);
    OpCountConcat(before, [ValByte(count, 1)]);
    ghost var upTo := n;
    assert Expand(upTo) == Repeat(0, index - first) + Repeat(count, 1);
    if index != last {
      var len := last - index;
      n := n + ZeroRun(len);
      ZeroRunIs(len);
      Concat(upTo, ZeroRun(len));
      OpCountConcat(upTo, ZeroRun(len));
    }
    assert Repeat(0, span)[index - first := count]
      == Repeat(0, index - first) + Repeat(count, 1) + Repeat(0, last - index);
  }

  method SplitVal(curval: nat, first: nat, span: nat, index: nat, count: nat) returns (n: Bytes)
    requires first <= index < first + span <= first + VAL_MAX_LEN
    requires 1 <= count <= VAL_MAX_VALUE && 1 <= curval <= VAL_MAX_VALUE
    ensures WholeOps(n) && Expand(n) == Repeat(curval, span)[index - first := count]
    ensures |n| == 1 + (if index == first then 0 else 1) + (if index == first + span - 1 then 0 else 1)
    ensures |n| <= 3 && OpCount(n) <= 3
  {
    hide WholeOps, Expand, ValByte, OpCount;
    NoOps();
    var last := first + span - 1;
    n := [];
    EmptyOps();
    if index != first {
      var len := index - first;
      n := n + [ValByte(curval, len)];
      OneVal(curval, len);
      assert n == [ValByte(curval, len)];
    }
    ghost var before := n;
    n := n + [ValByte(count, 1)];
    OneVal(count, 1);
    Concat(before, [ValByte(count, 1)]);
    OpCountConcat(before, [ValByte(count, 1)]);
    ghost var upTo := n;
    assert Expand(upTo) == Repeat(curval, index - first) + Repeat(count, 1);
    if index != last {
      var len := last - index;
      n := n + [ValByte(curval, len)];
      OneVal(curval, len);
      Concat(upTo, [ValByte(curval, len)]);
      OpCountConcat(upTo, [ValByte(curval, len)]);
    }
    assert Repeat(curval, span)[index - first := count]
      == Repeat(curval, index - first) + Repeat(count, 1) + Repeat(curval, last - index);
  }

  // Every register of the opcode at p holds its value.
  lemma Covered(s: Bytes, p: nat, k: nat)
    requires p < |s| && WholeOps(s[..p]) && WholeOps(s[p..])
    requires p + OpLen(s[p]) <= |s| && k < Span(s[p..])
    ensures WholeOps(s) && |Expand(s[..p])| + k < |Expand(s)|
    ensures Expand(s)[|Expand(s[..p])| + k] == Value(s[p])
  {
    hide WholeOps, Expand, OpLen, Span, Value;
    Advance(s, p);
    Split(s, p);
  }

  // Replacing the opcode at p by its own run with one register changed
  // changes exactly that register.
  lemma Replaced(s: Bytes, p: nat, n: Bytes, k: nat, count: nat)
    requires p < |s| && WholeOps(s[..p]) && WholeOps(s[p..]) && WholeOps(n)
    requires p + OpLen(s[p]) <= |s| && k < Span(s[p..])
    requires Expand(n) == Repeat(Value(s[p]), Span(s[p..]))[k := count]
    ensures WholeOps(s) && |Expand(s[..p])| + k < |Expand(s)|
    ensures var t := s[..p] + n + s[p + OpLen(s[p])..];
      WholeOps(t) && Expand(t) == Expand(s)[|Expand(s[..p])| + k := count]
  {
    hide WholeOps, Expand, OpLen, Span, Value;
    Covered(s, p, k);
    Advance(s, p);
    Split(s, p);
    var next := p + OpLen(s[p]);
    Concat(s[..p], n);
    Concat(s[..p] + n, s[next..]);
  }

  // ---- step 4: merge neighbouring VAL opcodes ----

  lemma MergeTwo(s: Bytes, p: nat)
    requires p + 1 < |s| && WholeOps(s[..p]) && WholeOps(s[p..])
    requires IsVal(s[p]) && IsVal(s[p + 1]) && ValValue(s[p]) == ValValue(s[p + 1])
    requires ValLen(s[p]) + ValLen(s[p + 1]) <= VAL_MAX_LEN
    ensures var t := s[..p] + [ValByte(ValValue(s[p]), ValLen(s[p]) + ValLen(s[p + 1]))] + s[p + 2..];
      WholeOps(s) && WholeOps(t) && Expand(t) == Expand(s) && WholeOps(t[..p]) && WholeOps(t[p..])
  {
    hide WholeOps, Expand, ValByte, IsVal, IsZero, IsXZero, ValValue, ValLen, Repeat, Span, OpLen, Value;
    var v, a, b := ValValue(s[p]), ValLen(s[p]), ValLen(s[p + 1]);
    Advance(s, p);
    KindOf(s, p);
    Advance(s, p + 1);
    KindOf(s, p + 1);
    Split(s, p + 2);
    var m := [ValByte(v, a + b)];
    OneVal(v, a + b);
    Concat(s[..p], m);
    Concat(s[..p] + m, s[p + 2..]);
    Concat(m, s[p + 2..]);
    RepeatTwice(v, a, b);
    var t := s[..p] + m + s[p + 2..];
    assert t[..p] == s[..p] && t[p..] == m + s[p + 2..];
  }

  lemma RepeatTwice(v: nat, a: nat, b: nat)
    ensures Repeat(v, a) + Repeat(v, b) == Repeat(v, a + b)
  {}

  // Two neighbouring VAL opcodes at p that one opcode could hold.
  predicate Mergeable(s: Bytes, p: nat) {
    p + 1 < |s| && IsVal(s[p]) && IsVal(s[p + 1]) && ValValue(s[p]) == ValValue(s[p + 1])
    && ValLen(s[p]) + ValLen(s[p + 1]) <= VAL_MAX_LEN
  }

  predicate Boundary(s: Bytes, p: nat) { p <= |s| && WholeOps(s[..p]) }

  // No opcode that starts in [lo, hi) can be merged with the next one.
  predicate Settled(s: Bytes, lo: nat, hi: nat) {
    forall q :: lo <= q < hi && Boundary(s, q) ==> !Mergeable(s, q)
  }

  // The string is as short as merging makes it.
  predicate Canonical(s: Bytes) { Settled(s, 0, |s|) }

  function OpCount(s: Bytes): (n: nat)
    requires WholeOps(s)
    ensures n <= |s| && (n == 0 <==> s == [])
  {
    if s == [] then 0 else 1 + OpCount(s[OpLen(s[0])..])
  }

  lemma {:induction false} OpCountConcat(s: Bytes, t: Bytes)
    requires WholeOps(s) && WholeOps(t)
    ensures WholeOps(s + t) && OpCount(s + t) == OpCount(s) + OpCount(t)
    decreases |s|
  {
    hide *;
    Concat(s, t);
    NoOps();
    if s == [] {
      assert s + t == t;
    } else {
      FirstCount(s);
      FirstCount(s + t);
      var n := OpLen(s[0]);
      assert (s + t)[0] == s[0];
      assert (s + t)[n..] == s[n..] + t;
      OpCountConcat(s[n..], t);
    }
  }

  // What lies between two boundaries is whole opcodes.
  lemma Between(s: Bytes, p: nat, q: nat)
    requires Boundary(s, p) && Boundary(s, q) && p <= q
    ensures WholeOps(s[p..q])
  {
    hide WholeOps;
    assert s[..q] == s[..p] + s[p..q];
    Concat(s[..p], s[p..q]);
  }

  // The next boundary after p is the end of its opcode.
  lemma NextBoundary(s: Bytes, p: nat, q: nat)
    requires Boundary(s, p) && Boundary(s, q) && p < q
    ensures p + OpLen(s[p]) <= q && Boundary(s, p + OpLen(s[p]))
    ensures WholeOps(s[p..q]) && WholeOps(s[p + OpLen(s[p])..q])
    ensures OpCount(s[p..q]) == 1 + OpCount(s[p + OpLen(s[p])..q])
  {
    hide OpLen, WholeOps, OpCount;
    Between(s, p, q);
    var t := s[p..q];
    assert t[0] == s[p];
    FirstCount(t);
    var n := OpLen(t[0]);
    assert t[n..] == s[p + n..q];
    FirstWhole(t);
    assert s[..p + n] == s[..p] + t[..n];
    Concat(s[..p], t[..n]);
  }

  lemma FirstCount(t: Bytes)
    requires t != [] && WholeOps(t)
    ensures OpLen(t[0]) <= |t| && WholeOps(t[OpLen(t[0])..]) && OpCount(t) == 1 + OpCount(t[OpLen(t[0])..])
  {
    hide OpLen;
  }

  lemma FirstWhole(t: Bytes)
    requires t != [] && WholeOps(t)
    ensures OpLen(t[0]) <= |t| && WholeOps(t[..OpLen(t[0])])
  {
    hide OpLen, Value, Span, Repeat;
    OneOp(t);
  }

  // Going past an opcode that cannot be merged.
  lemma SettleOne(s: Bytes, p: nat)
    requires Settled(s, 0, p) && Boundary(s, p) && p < |s| && !Mergeable(s, p)
    ensures Settled(s, 0, p + OpLen(s[p]))
  {
    hide WholeOps, Mergeable;
    forall q | 0 <= q < p + OpLen(s[p]) && Boundary(s, q) ensures !Mergeable(s, q) {
      if q > p { NextBoundary(s, p, q); }
    }
  }

  function Merged(s: Bytes, p: nat): Bytes
    requires Mergeable(s, p)
  {
    s[..p] + [ValByte(ValValue(s[p]), ValLen(s[p]) + ValLen(s[p + 1]))] + s[p + 2..]
  }

  // Boundaries after a merge are those before it, one byte earlier.
  lemma MergedBoundary(s: Bytes, p: nat, q: nat)
    requires Mergeable(s, p) && Boundary(s, p) && q <= |s| - 1
    ensures Boundary(Merged(s, p), q) == Boundary(s, if q <= p then q else q + 1)
    ensures Boundary(s, p + 1)
  {
    hide WholeOps, IsVal, ValValue, ValLen, ValByte, IsXZero, IsZero;
    var t := Merged(s, p);
    ReadVal(ValValue(s[p]), ValLen(s[p]) + ValLen(s[p + 1]));
    OneVal(ValValue(s[p]), ValLen(s[p]) + ValLen(s[p + 1]));
    LoneVal(s[p]); LoneVal(s[p + 1]);
    assert s[..p + 1] == s[..p] + [s[p]];
    Concat(s[..p], [s[p]]);
    if q <= p {
      assert t[..q] == s[..q];
    } else {
      var rest := s[p + 2..q + 1];
      assert t[..q] == s[..p] + ([t[p]] + rest);
      assert s[..q + 1] == s[..p] + ([s[p]] + ([s[p + 1]] + rest));
      Concat(s[..p], [t[p]] + rest); Concat([t[p]], rest);
      Concat(s[..p], [s[p]] + ([s[p + 1]] + rest)); Concat([s[p]], [s[p + 1]] + rest); Concat([s[p + 1]], rest);
    }
  }

  lemma LoneVal(b: bv8)
    requires IsVal(b)
    ensures WholeOps([b]) && OpLen(b) == 1 && OpCount([b]) == 1
  {
    hide IsVal, IsXZero, IsZero;
    ThreeKinds(b);
    assert [b][1..] == [];
  }

  // The merged opcode is longer, so what could not be merged with its parts cannot be merged with it.
  lemma MergedSettled(s: Bytes, p: nat, limit: nat)
    requires Mergeable(s, p) && Boundary(s, p) && Settled(s, 0, p)
    requires p < limit <= |s| && Boundary(s, limit) && Settled(s, limit, |s|)
    ensures Settled(Merged(s, p), 0, p) && Settled(Merged(s, p), limit - 1, |s| - 1)
  {
    hide WholeOps, IsVal, ValValue, ValLen, ValByte, Boundary;
    var t := Merged(s, p);
    ReadVal(ValValue(s[p]), ValLen(s[p]) + ValLen(s[p + 1]));
    MergedBoundary(s, p, p);
    forall q | 0 <= q < p && Boundary(t, q) ensures !Mergeable(t, q) {
      MergedBoundary(s, p, q);
      assert t[q] == s[q] && (q + 1 < p ==> t[q + 1] == s[q + 1]);
      assert !Mergeable(s, q);
    }
    forall q | limit - 1 <= q < |s| - 1 && Boundary(t, q) ensures !Mergeable(t, q) {
      MergedBoundary(s, p, q);
      assert q > p ==> t[q] == s[q + 1];
      assert q + 1 < |t| ==> t[q + 1] == s[q + 2];
      assert !Mergeable(s, q + 1);
    }
  }

  lemma MergedCount(s: Bytes, p: nat, limit: nat)
    requires Mergeable(s, p) && Boundary(s, p) && Boundary(s, limit) && p < limit <= |s|
    ensures Boundary(Merged(s, p), p) && Boundary(Merged(s, p), limit - 1)
    ensures WholeOps(s[p..limit]) && WholeOps(Merged(s, p)[p..limit - 1])
    ensures OpCount(Merged(s, p)[p..limit - 1]) + 1 == OpCount(s[p..limit])
  {
    hide WholeOps, OpCount, Boundary, IsVal, ValByte, ValValue, ValLen;
    var t := Merged(s, p);
    MergedBoundary(s, p, p);
    MergedBoundary(s, p, limit - 1);
    LoneVal(s[p]);
    NextBoundary(s, p, limit);
    if limit == p + 1 {
      NoOps();
      assert t[p..limit - 1] == [] && s[p + 1..limit] == [];
    } else {
      LoneVal(s[p + 1]);
      NextBoundary(s, p + 1, limit);
      ReadVal(ValValue(s[p]), ValLen(s[p]) + ValLen(s[p + 1]));
      LoneVal(t[p]);
      NextBoundary(t, p, limit - 1);
      assert t[p + 1..limit - 1] == s[p + 2..limit];
    }
  }

  lemma NoOps()
    ensures WholeOps([]) && OpCount([]) == 0
  {}

  // The scan of at most five opcodes from start. When everything before start and
  // from limit on is settled and at most five opcodes lie between, everything is.
  method MergeValues(s: Bytes, start: nat, ghost limit: nat) returns (t: Bytes)
    requires Valid(s) && start <= limit && Boundary(s, start) && Boundary(s, limit)
    ensures Valid(t) && Expand(t) == Expand(s) && |t| <= |s|
    ensures (WholeOps(s[start..limit]) && OpCount(s[start..limit]) <= 5
      && Settled(s, 0, start) && Settled(s, limit, |s|)) ==> Canonical(t)
  {
    hide WholeOps, Expand, ValByte, IsVal, IsZero, IsXZero, ValValue, ValLen, Repeat, Value, Span, OpCount, Settled,
      OpLen;
    t := s;
    var p: nat := start;
    ghost var l := limit;
    ghost var holds := Settled(s, 0, start) && Settled(s, limit, |s|) && InOps(s, start, limit, 5);
    Between(s, start, limit);
    var scanlen := 5;
    while p < |t| && scanlen > 0
      invariant 0 <= p <= |t| <= |s| && Boundary(t, p) && Valid(t) && Expand(t) == Expand(s)
      invariant 0 <= scanlen
      invariant holds ==> Boundary(t, l) && Settled(t, 0, p) && Settled(t, l, |t|) && InOps(t, p, l, scanlen)
      decreases scanlen
    {
      scanlen := scanlen - 1;
      RestWhole(t, p);
      Advance(t, p);
      ThreeKinds(t[p]);
      KindOf(t, p);
      if holds { PassOne(t, p, l, scanlen); }
      if IsXZero(t[p]) {
        p := p + 2;
        continue;
      } else if IsZero(t[p]) {
        p := p + 1;
        continue;
      }
      if p + 1 < |t| && IsVal(t[p + 1]) {
        var v1, v2 := ValValue(t[p]), ValValue(t[p + 1]);
        if v1 == v2 {
          var len := ValLen(t[p]) + ValLen(t[p + 1]);
          if len <= VAL_MAX_LEN {
            MergeTwo(t, p);
            if holds { MergeOne(t, p, l, scanlen); l := l - 1; }
            t := t[..p] + [ValByte(v1, len)] + t[p + 2..];
            continue;
          }
        }
      }
      p := p + 1;
    }
    if holds { AllSettled(t, p, l, scanlen); }
  }

  // At most n opcodes lie from p up to limit, if limit is still ahead.
  predicate InOps(s: Bytes, p: nat, limit: nat, n: nat) {
    p <= limit <= |s| ==> WholeOps(s[p..limit]) && OpCount(s[p..limit]) <= n
  }

  lemma RestWhole(s: Bytes, p: nat)
    requires WholeOps(s) && Boundary(s, p)
    ensures WholeOps(s[p..])
  {
    assert s[..p] + s[p..] == s;
    Concat(s[..p], s[p..]);
  }

  lemma PassOne(s: Bytes, p: nat, limit: nat, n: nat)
    requires Boundary(s, p) && Boundary(s, limit) && p < |s| && InOps(s, p, limit, n + 1) && Settled(s, 0, p)
    requires Settled(s, limit, |s|) && WholeOps(s)
    ensures InOps(s, p + OpLen(s[p]), limit, n)
    ensures Mergeable(s, p) ==> p < limit
    ensures !Mergeable(s, p) ==> Settled(s, 0, p + OpLen(s[p]))
  {
    hide WholeOps, OpCount, OpLen, Mergeable;
    if p < limit { NextBoundary(s, p, limit); }
    if !Mergeable(s, p) { SettleOne(s, p); }
  }

  lemma MergeOne(s: Bytes, p: nat, limit: nat, n: nat)
    requires Mergeable(s, p) && Boundary(s, p) && Boundary(s, limit) && p < limit <= |s| && InOps(s, p, limit, n + 1)
    requires Settled(s, 0, p) && Settled(s, limit, |s|)
    ensures var t := Merged(s, p);
      Boundary(t, limit - 1) && InOps(t, p, limit - 1, n) && Settled(t, 0, p) && Settled(t, limit - 1, |t|)
  {
    hide WholeOps, OpCount, Settled, Mergeable;
    MergedCount(s, p, limit);
    MergedSettled(s, p, limit);
    MergedLength(s, p);
  }

  lemma MergedLength(s: Bytes, p: nat)
    requires Mergeable(s, p)
    ensures |Merged(s, p)| == |s| - 1
  {}

  lemma AllSettled(s: Bytes, p: nat, limit: nat, n: nat)
    requires Settled(s, 0, p) && Settled(s, limit, |s|) && InOps(s, p, limit, n)
    requires limit <= |s| && p <= |s| && (p == |s| || n == 0)
    ensures Canonical(s)
  {
    hide WholeOps, Mergeable;
  }

  // ---- the opcode at p replaced by n ----

  function Splice(s: Bytes, p: nat, n: Bytes): Bytes
    requires p < |s| && p + OpLen(s[p]) <= |s|
  {
    s[..p] + n + s[p + OpLen(s[p])..]
  }

  lemma SpliceBefore(s: Bytes, p: nat, n: Bytes, q: nat)
    requires p < |s| && p + OpLen(s[p]) <= |s| && q <= p
    ensures Boundary(Splice(s, p, n), q) == Boundary(s, q)
    ensures q < p ==> Splice(s, p, n)[q] == s[q]
  {
    hide WholeOps;
    assert Splice(s, p, n)[..q] == s[..q];
  }

  lemma SpliceAfter(s: Bytes, p: nat, n: Bytes, q: nat)
    requires p < |s| && p + OpLen(s[p]) <= |s| && WholeOps(n)
    requires Boundary(s, p) && Boundary(s, p + OpLen(s[p])) && p + |n| <= q <= |Splice(s, p, n)|
    ensures Boundary(Splice(s, p, n), q) == Boundary(s, q - |n| + OpLen(s[p]))
    ensures q < |Splice(s, p, n)| ==> Splice(s, p, n)[q] == s[q - |n| + OpLen(s[p])]
  {
    hide WholeOps, OpLen;
    var next := p + OpLen(s[p]);
    var k := q - p - |n|;
    var u := Splice(s, p, n);
    assert u[..q] == s[..p] + (n + s[next..next + k]);
    assert s[..next + k] == s[..next] + s[next..next + k];
    Concat(s[..p], n + s[next..next + k]);
    Concat(n, s[next..next + k]);
    Concat(s[..next], s[next..next + k]);
  }

  lemma SettledBefore(s: Bytes, p: nat, n: Bytes, from: nat)
    requires p < |s| && p + OpLen(s[p]) <= |s| && Canonical(s)
    requires from < p || (from == 0 && p == 0)
    ensures Settled(Splice(s, p, n), 0, from)
  {
    hide WholeOps, OpLen, IsVal, ValValue, ValLen, Boundary, Splice;
    var u := Splice(s, p, n);
    forall q | 0 <= q < from && Boundary(u, q) ensures !Mergeable(u, q) {
      SpliceBefore(s, p, n, q);
      SpliceBefore(s, p, n, q + 1);
      assert !Mergeable(s, q);
    }
  }

  lemma SettledAfter(s: Bytes, p: nat, n: Bytes)
    requires p < |s| && p + OpLen(s[p]) <= |s| && Canonical(s) && WholeOps(n)
    requires Boundary(s, p) && Boundary(s, p + OpLen(s[p]))
    ensures |Splice(s, p, n)| == |s| + |n| - OpLen(s[p]) && Settled(Splice(s, p, n), p + |n|, |Splice(s, p, n)|)
  {
    hide WholeOps, OpLen, IsVal, ValValue, ValLen, Boundary;
    var u, d := Splice(s, p, n), OpLen(s[p]) - |n|;
    assert |u| == |s| - d;
    hide Splice;
    forall q | p + |n| <= q < |u| && Boundary(u, q) ensures !Mergeable(u, q) {
      SpliceAfter(s, p, n, q);
      if q + 1 < |u| { SpliceAfter(s, p, n, q + 1); }
      assert !Mergeable(s, q + d);
    }
  }

  lemma EndBoundary(s: Bytes)
    requires WholeOps(s)
    ensures Boundary(s, |s|)
  {
    assert s[..|s|] == s;
  }

  // Everything the merging step needs to know about the replaced opcode.
  lemma Spliced(s: Bytes, p: nat, n: Bytes, from: nat)
    requires WholeOps(s) && p < |s| && Boundary(s, p) && Boundary(s, from) && WholeOps(n) && OpCount(n) <= 3
    requires if p == 0 then from == 0 else from < p && from + OpLen(s[from]) == p
    ensures p + OpLen(s[p]) <= |s|
    ensures var u := Splice(s, p, n);
      && Boundary(u, from) && Boundary(u, p + |n|) && WholeOps(u[from..p + |n|]) && OpCount(u[from..p + |n|]) <= 5
      && (Canonical(s) ==> Settled(u, 0, from) && Settled(u, p + |n|, |u|))
  {
    hide WholeOps, OpLen, OpCount, Canonical, Settled;
    EndBoundary(s);
    NextBoundary(s, p, |s|);
    if Canonical(s) { SettledBefore(s, p, n, from); SettledAfter(s, p, n); }
    var u := Splice(s, p, n);
    SpliceBefore(s, p, n, from);
    SpliceAfter(s, p, n, p + |n|);
    NoOps();
    if p > 0 {
      NextBoundary(s, from, p);
      assert s[p..p] == [];
    } else {
      assert s[from..p] == [];
    }
    assert u[from..p + |n|] == s[from..p] + n;
    OpCountConcat(s[from..p], n);
  }

  // ---- the whole in-place update ----

  datatype Outcome = Unchanged | TooLong | Updated(s: Bytes)

  lemma OneChanged(v: nat, count: nat)
    ensures Repeat(v, 1)[0 := count] == Repeat(count, 1)
  {}

  // The opcodes that take the place of the one at p
  method NewOps(s: Bytes, p: nat, first: nat, span: nat, index: nat, count: nat) returns (n: Bytes)
    requires p < |s| && p + OpLen(s[p]) <= |s| && span == Span(s[p..])
    requires first <= index < first + span && Value(s[p]) < count <= VAL_MAX_VALUE
    ensures WholeOps(n) && Expand(n) == Repeat(Value(s[p]), span)[index - first := count] && OpCount(n) <= 3
    ensures |n| == OpLen(s[p]) + OpGrowth(s[p..], index - first) && |n| <= OpLen(s[p]) + 3
  {
    hide OpGrowth, ZeroBytes, OpCount, Expand, WholeOps, Repeat, Span, Value, IsZero, IsXZero, IsVal, ValByte, ZeroLen,
      XZeroLen, ValLen, ValValue, OpLen;
    KindOf(s, p);
    ThreeKinds(s[p]);
    OpGrowthIs(s[p..], index - first);
    var isZero, isXZero, isVal := IsZero(s[p]), IsXZero(s[p]), IsVal(s[p]);
    if (isVal || isZero) && span == 1 {
      // Cases B and C: the opcode covers this register alone.
      n := [ValByte(count, 1)];
      OneVal(count, 1);
      OneChanged(Value(s[p]), count);
    } else if isZero || isXZero {
      // Case D: the opcode is split in up to three.
      n := SplitZeros(first, span, index, count);
    } else {
      n := SplitVal(ValValue(s[p]), first, span, index, count);
    }
  }

  // Steps 1 to 4: raise one register to count within room bytes.
  method Rewrite(s: Bytes, index: nat, count: nat, room: int) returns (outcome: Outcome)
    requires Valid(s) && index < REGISTERS && 1 <= count <= VAL_MAX_VALUE
    ensures outcome.Unchanged? <==> Expand(s)[index] >= count
    // It gives up exactly when the opcode has to grow, and there is no room for that.
    ensures outcome.TooLong? <==>
      Expand(s)[index] < count && Growth(s, index) > 0 && |s| + Growth(s, index) > room
    ensures outcome.TooLong? ==> |s| + 3 > room
    ensures outcome.Updated? ==> Valid(outcome.s) && Expand(outcome.s) == Expand(s)[index := count]
    ensures outcome.Updated? ==> |outcome.s| <= |s| + 3 && (|outcome.s| > |s| ==> |outcome.s| <= room)
    ensures outcome.Updated? && Canonical(s) ==> Canonical(outcome.s)
  {
    hide Growth, OpGrowth, ZeroBytes, OpCount, Canonical, Expand, WholeOps, Repeat, Span, Value, IsZero, IsXZero, IsVal,
      ValByte, ZeroLen, XZeroLen, ValLen, ValValue, OpLen;
    var p, first, span, prev := Locate(s, index);
    Covered(s, p, index - first);
    GrowthIs(s, p, index);
    KindOf(s, p);
    ThreeKinds(s[p]);
    var oldlen := if IsXZero(s[p]) then 2 else 1;
    // Case A: the register already holds at least this much.
    if IsVal(s[p]) && ValValue(s[p]) >= count { return Unchanged; }
    var n := NewOps(s, p, first, span, index, count);
    var deltalen := |n| - oldlen;
    if deltalen > 0 && |s| + deltalen > room { return TooLong; }
    Replaced(s, p, n, index - first, count);
    var from := if prev == -1 then 0 else prev;
    StartBoundary(s, from);
    Spliced(s, p, n, from);
    var t := MergeValues(s[..p] + n + s[p + oldlen..], from, p + |n|);
    outcome := Updated(t);
  }

  lemma OpGrowthIs(s: Bytes, k: nat)
    requires s != [] && OpLen(s[0]) <= |s| && k < Span(s)
    ensures IsVal(s[0]) ==> OpGrowth(s, k) == (if k == 0 then 0 else 1) + (if k == Span(s) - 1 then 0 else 1)
    ensures !IsVal(s[0]) ==> OpGrowth(s, k) == 1 + ZeroBytes(k) + ZeroBytes(Span(s) - 1 - k) - OpLen(s[0])
    ensures ZeroBytes(0) == 0
  {
    hide IsVal, OpLen, Span;
  }

  lemma StartBoundary(s: Bytes, b: nat)
    requires b <= |s| && (b == 0 || WholeOps(s[..b]))
    ensures WholeOps(s[..b])
  {}

  // ---- the sum over the runs ----

  method Sum(s: Bytes, pe: array<real>) returns (e: real, ez: nat, invalid: bool)
    requires Valid(s) && PowerTable(pe[..])
    ensures e == SumOf(Expand(s)) && ez == ZerosOf(Expand(s)) && !invalid
  {
    hide Expand, WholeOps, SumOf, ZerosOf, Weight, Repeat, Value, Span, OpLen, IsZero, IsXZero, IsVal, ZeroLen,
      XZeroLen, ValLen, ValValue;
    e, ez := 0.0, 0;
    var idx: nat := 0;
    var p: nat := 0;
    EmptyOps();
    EmptySums();
    assert s[..0] == [] && s[0..] == s && s[..|s|] == s;
    while p < |s|
      invariant 0 <= p <= |s| && WholeOps(s[..p]) && WholeOps(s[p..])
      invariant idx == |Expand(s[..p])|
      invariant e + ez as real == SumOf(Expand(s[..p])) && ez == ZerosOf(Expand(s[..p]))
      decreases |s| - p
    {
      StepAt(s, p);
      SumRepeat(Expand(s[..p]), Value(s[p]), Span(s[p..]));
      TimesIs(Span(s[p..]), Weight(Value(s[p])));
      if IsZero(s[p]) {
        var runlen := ZeroLen(s[p]);
        idx := idx + runlen;
        ez := ez + runlen;
        p := p + 1;
      } else if IsXZero(s[p]) {
        var runlen := XZeroLen(s[p], s[p + 1]);
        idx := idx + runlen;
        ez := ez + runlen;
        p := p + 2;
      } else {
        var runlen := ValLen(s[p]);
        var regval := ValValue(s[p]);
        idx := idx + runlen;
        e := e + pe[regval] * runlen as real;
        p := p + 1;
      }
    }
    invalid := idx != REGISTERS;
    e := e + ez as real;
  }

  lemma EmptySums()
    ensures SumOf([]) == 0.0 && ZerosOf([]) == 0 && Weight(0) == 1.0
  {}
}
