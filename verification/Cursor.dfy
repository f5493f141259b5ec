// The reverse-binary cursor of dictScan: bit reversal, the step of the cursor,
// and the order in which the cursor visits hash values.
module Cursor {
  import opened Words

  // One round of the parallel reversal: swap neighbouring groups of bits.
  function Swap(v: bv64, s: bv64, mask: bv64): bv64
    requires s <= 64
  {
    ((v >> s) & mask) | ((v << s) & !mask)
  }

  // The word read from its low bit to its high bit.
  function Rev(v: bv64): bv64 {
    var v := ((v >> 32) & 0x0000_0000_FFFF_FFFF) | ((v << 32) & 0xFFFF_FFFF_0000_0000);
    var v := ((v >> 16) & 0x0000_FFFF_0000_FFFF) | ((v << 16) & 0xFFFF_0000_FFFF_0000);
    var v := ((v >> 8) & 0x00FF_00FF_00FF_00FF) | ((v << 8) & 0xFF00_FF00_FF00_FF00);
    var v := ((v >> 4) & 0x0F0F_0F0F_0F0F_0F0F) | ((v << 4) & 0xF0F0_F0F0_F0F0_F0F0);
    var v := ((v >> 2) & 0x3333_3333_3333_3333) | ((v << 2) & 0xCCCC_CCCC_CCCC_CCCC);
    ((v >> 1) & 0x5555_5555_5555_5555) | ((v << 1) & 0xAAAA_AAAA_AAAA_AAAA)
  }

  lemma Swap32(v: bv64)
    ensures Swap(v, 32, 0x0000_0000_FFFF_FFFF) ==
      ((v >> 32) & 0x0000_0000_FFFF_FFFF) | ((v << 32) & 0xFFFF_FFFF_0000_0000)
  {}

  lemma Swap16(v: bv64)
    ensures Swap(v, 16, 0x0000_FFFF_0000_FFFF) ==
      ((v >> 16) & 0x0000_FFFF_0000_FFFF) | ((v << 16) & 0xFFFF_0000_FFFF_0000)
  {}

  lemma Swap8(v: bv64)
    ensures Swap(v, 8, 0x00FF_00FF_00FF_00FF) == ((v >> 8) & 0x00FF_00FF_00FF_00FF) | ((v << 8) & 0xFF00_FF00_FF00_FF00)
  {}

  lemma Swap4(v: bv64)
    ensures Swap(v, 4, 0x0F0F_0F0F_0F0F_0F0F) == ((v >> 4) & 0x0F0F_0F0F_0F0F_0F0F) | ((v << 4) & 0xF0F0_F0F0_F0F0_F0F0)
  {}

  lemma Swap2(v: bv64)
    ensures Swap(v, 2, 0x3333_3333_3333_3333) == ((v >> 2) & 0x3333_3333_3333_3333) | ((v << 2) & 0xCCCC_CCCC_CCCC_CCCC)
  {}

  lemma Swap1(v: bv64)
    ensures Swap(v, 1, 0x5555_5555_5555_5555) == ((v >> 1) & 0x5555_5555_5555_5555) | ((v << 1) & 0xAAAA_AAAA_AAAA_AAAA)
  {}

  // What the loop of rev() still has to do when the group size has become s.
  function RevRest(v: bv64, mask: bv64, s: bv64): bv64
    requires s <= 32
    decreases s
  {
    if s == 0 then v
    else
      var mask' := mask ^ (mask << s);
      RevRest(Swap(v, s, mask'), mask', s >> 1)
  }

  lemma RevBySwaps(v: bv64)
    ensures Rev(v) ==
      Swap(Swap(Swap(Swap(Swap(Swap(
        v, 32, 0x0000_0000_FFFF_FFFF), 16, 0x0000_FFFF_0000_FFFF), 8, 0x00FF_00FF_00FF_00FF),
        4, 0x0F0F_0F0F_0F0F_0F0F), 2, 0x3333_3333_3333_3333), 1, 0x5555_5555_5555_5555)
  {
    var v32 := Swap(v, 32, 0x0000_0000_FFFF_FFFF); var v16 := Swap(v32, 16, 0x0000_FFFF_0000_FFFF);
    var v8 := Swap(v16, 8, 0x00FF_00FF_00FF_00FF); var v4 := Swap(v8, 4, 0x0F0F_0F0F_0F0F_0F0F);
    var v2 := Swap(v4, 2, 0x3333_3333_3333_3333);
    hide Swap;
    Swap32(v); Swap16(v32); Swap8(v16); Swap4(v8); Swap2(v4); Swap1(v2);
  }

  lemma RevRestWhole(v: bv64)
    ensures RevRest(v, ONES, 32) == Rev(v)
  {
    RevBySwaps(v);
    hide Swap, Rev;
    var v32 := Swap(v, 32, 0x0000_0000_FFFF_FFFF); var v16 := Swap(v32, 16, 0x0000_FFFF_0000_FFFF);
    var v8 := Swap(v16, 8, 0x00FF_00FF_00FF_00FF); var v4 := Swap(v8, 4, 0x0F0F_0F0F_0F0F_0F0F);
    var v2 := Swap(v4, 2, 0x3333_3333_3333_3333); var v1 := Swap(v2, 1, 0x5555_5555_5555_5555);
    assert RevRest(v1, 0x5555_5555_5555_5555, 0) == v1;
    assert RevRest(v2, 0x3333_3333_3333_3333, 1) == v1;
    assert RevRest(v4, 0x0F0F_0F0F_0F0F_0F0F, 2) == v1;
    assert RevRest(v8, 0x00FF_00FF_00FF_00FF, 4) == v1;
    assert RevRest(v16, 0x0000_FFFF_0000_FFFF, 8) == v1;
    assert RevRest(v32, 0x0000_0000_FFFF_FFFF, 16) == v1;
    assert RevRest(v, ONES, 32) == v1;
  }

  // rev()
  method Reverse(word: bv64) returns (v: bv64)
    ensures v == Rev(word)
  {
    v := word;
    var s: bv64 := 32;
    var mask := ONES;
    RevRestWhole(v);
    hide Rev, Swap;
    while s > 0
      invariant s <= 32
      invariant RevRest(v, mask, s) == Rev(word)
    {
      mask := mask ^ (mask << s);
      v := Swap(v, s, mask);
      s := s >> 1;
    }
  }

  // Bit i of the reversed word is bit 63 - i of the word.
  lemma RevBit(v: bv64, i: bv64)
    requires i < 64
    ensures (Rev(v) >> i) & 1 == (v >> (63 - i)) & 1
  {}

  lemma RevRev(v: bv64)
    ensures Rev(Rev(v)) == v
  {}

  lemma RevAnd(v: bv64, w: bv64)
    ensures Rev(And(v, w)) == And(Rev(v), Rev(w))
  {}

  lemma RevOr(v: bv64, w: bv64)
    ensures Rev(Or(v, w)) == Or(Rev(v), Rev(w))
  {}

  lemma RevComplement(v: bv64)
    ensures Rev(!v) == !Rev(v)
  {}

  lemma RevNot(v: bv64)
    ensures Rev(Not(v)) == Not(Rev(v))
  {
    hide Rev;
    RevComplement(v);
  }

  lemma RevLowMask(m: bv64)
    requires LowMask(m)
    ensures LowMask(Not(Rev(m)))
  {}

  lemma NotNot(v: bv64)
    ensures Not(Not(v)) == v
  {}

  lemma RevZero()
    ensures Rev(0) == 0
  {}

  // The cursor returned by a call that was given v and scanned at mask m.
  function Next(v: bv64, m: bv64): bv64 { Rev(Inc(Rev(Or(v, Not(m))))) }

  // Position of a word in the order in which the cursor moves.
  function Order(v: bv64): nat { Val(Rev(v)) }

  // A word still to be visited is in the bucket at the cursor or remains to be visited after the step.
  lemma NextCovers(v: bv64, m: bv64, x: bv64)
    requires LowMask(m)
    requires Order(v) <= Order(x) && And(x, m) != And(v, m)
    ensures Next(v, m) != 0 && Order(Next(v, m)) <= Order(x)
  {
    hide *;
    var L := Not(Rev(m));
    var w := Rev(Or(v, Not(m)));
    assert w == Or(Rev(v), L) by { RevOr(v, Not(m)); RevNot(m); }
    assert Order(x) == Val(Rev(x)) && Order(v) == Val(Rev(v)) by { OrderVal(x); OrderVal(v); }
    RevLowMask(m);
    if Val(Rev(x)) <= Val(w) {
      Block(Rev(v), Rev(x), L);
      NotNot(Rev(m)); RevAnd(x, m); RevAnd(v, m);
      RevRev(And(x, m)); RevRev(And(v, m));
      assert false;
    }
    NextAbove(w, Rev(x));
    NextIs(v, m, w);
    RevRev(Inc(w)); RevZero();
    OrderVal(Next(v, m));
  }

  lemma OrderVal(v: bv64)
    ensures Order(v) == Val(Rev(v))
  {}

  lemma NextIs(v: bv64, m: bv64, w: bv64)
    requires w == Rev(Or(v, Not(m)))
    ensures Next(v, m) == Rev(Inc(w))
  {}

  lemma NextAbove(w: bv64, y: bv64)
    requires Val(w) < Val(y)
    ensures Inc(w) != 0 && Val(Inc(w)) == Val(w) + 1
  {
    hide *;
    AndOnes(y); AndBelow(y, ONES);
    ValInc(w); IncNonZero(w);
  }

  lemma AndOnes(y: bv64)
    ensures And(y, ONES) == y
  {}

  // The cursor strictly advances, so a scan ends whatever the tables do meanwhile.
  lemma NextAdvances(v: bv64, m: bv64)
    ensures Next(v, m) == 0 || Order(v) < Order(Next(v, m))
  {
    hide *;
    var w := Rev(Or(v, Not(m)));
    NextIs(v, m, w);
    RevRev(Inc(w)); RevZero();
    OrderVal(v); OrderVal(Next(v, m));
    if Next(v, m) != 0 {
      RevOr(v, Not(m));
      OrAbsorbs(Rev(v), Rev(Not(m)));
      AndBelow(Rev(v), w);
      IncWraps(w);
      ValInc(w);
    }
  }

  // The step depends on the cursor's bits within the mask alone.
  lemma SameNext(v: bv64, x: bv64, m: bv64)
    requires And(v, m) == And(x, m)
    ensures Next(v, m) == Next(x, m)
  {
    hide Rev, And, Or, Not, Inc;
    SameFilled(v, x, m);
  }

  lemma SameFilled(v: bv64, x: bv64, m: bv64)
    requires And(v, m) == And(x, m)
    ensures Or(v, Not(m)) == Or(x, Not(m))
  {}

  // The step leaves no bit outside the mask, and goes to the first bucket in the
  // cursor's order that lies behind the one at the cursor: it skips none.
  lemma NextInMask(v: bv64, m: bv64)
    requires LowMask(m)
    ensures And(Next(v, m), m) == Next(v, m)
  {}

  lemma NextLeast(v: bv64, m: bv64, x: bv64)
    requires LowMask(m) && And(x, m) == x && Order(And(v, m)) < Order(x)
    ensures Next(v, m) != 0 && Order(And(v, m)) < Order(Next(v, m)) <= Order(x)
  {
    hide Rev, And, Order, Next, LowMask;
    AndTwice(v, m);
    SameNext(v, And(v, m), m);
    NextCovers(And(v, m), m, x);
    NextAdvances(And(v, m), m);
  }

  lemma OrAbsorbs(a: bv64, b: bv64)
    ensures And(a, Or(a, b)) == a
  {}

  lemma IncWraps(w: bv64)
    ensures w == ONES ==> Inc(w) == 0
  {}

  // ---- expansions of the cursor in the larger of two tables ----

  // The step of the inner loop of dictScan: count upwards in the bits above m0.
  function Advance(v: bv64, m0: bv64): bv64 { Or(And(Inc(Or(v, m0)), Not(m0)), And(v, m0)) }

  // The inner loop stops once the bits of m1 above m0 are all zero again.
  predicate Wrapped(v: bv64, m0: bv64, m1: bv64) { v & (m0 ^ m1) == 0 }

  lemma AdvanceIndex(v: bv64, m0: bv64, m1: bv64)
    requires LowMask(m0) && LowMask(m1) && And(m0, m1) == m0
    ensures Or(And(v, m1), m0) == m1 ==> Wrapped(Advance(v, m0), m0, m1)
    ensures Or(And(v, m1), m0) != m1 ==> !Wrapped(Advance(v, m0), m0, m1)
  {}

  lemma {:induction false} IncMasked(x: bv64, m: bv64, n: nat)
    requires LowMask(m) && And(x, m) != m && Fits(m, n)
    ensures And(Inc(x), m) == Inc(And(x, m))
    decreases n
  {
    hide Half, Bit0, And, Inc, LowMask;
    Zeroes(x);
    LowMaskHalf(m);
    AndHalf(x, m); AndHalf(Inc(x), m);
    if Bit0(x) == 0 {
      IncEven(x); IncEven(And(x, m));
    } else {
      OnesAnd(x, m);
      IncOdd(x); IncOdd(And(x, m));
      if And(Half(x), Half(m)) == Half(m) { SameHalf(And(x, m), m); }
      IncMasked(Half(x), Half(m), n - 1);
    }
    SameHalf(And(Inc(x), m), Inc(And(x, m)));
  }

  lemma OnesAnd(x: bv64, m: bv64)
    requires And(x, m) != m
    ensures x != ONES && And(x, m) != ONES
  {}

  lemma IncClears(x: bv64, m: bv64)
    requires LowMask(m) && And(x, m) == m
    ensures And(Inc(x), m) == 0
  {}

  lemma RawOrMask(v: bv64, m0: bv64, m1: bv64)
    ensures (v | m0) & m1 == (v & m1) | (m0 & m1)
  {}

  lemma RawOrAnd(v: bv64, m: bv64)
    ensures (v | m) & m == m
  {}

  lemma RawClear(y: bv64, m: bv64)
    requires y & m == 0
    ensures y & !m == y
  {}

  lemma RawAnds(v: bv64, m0: bv64, m1: bv64)
    ensures (v & m1) & m0 == v & (m0 & m1)
  {}

  lemma RawOut(i: bv64, m: bv64)
    ensures (i & !m) & m == 0
  {}

  lemma RawOrOut(i: bv64, m: bv64)
    ensures (i & !m) | m == i | m
  {}

  lemma RawAndOut(i: bv64, m: bv64)
    ensures (i | m) & !m == i & !m
  {}

  lemma OrMask(v: bv64, m0: bv64, m1: bv64)
    ensures And(Or(v, m0), m1) == Or(And(v, m1), And(m0, m1))
  {
    calc {
      And(Or(v, m0), m1);
      Or(v, m0) & m1;
      (v | m0) & m1;
      { RawOrMask(v, m0, m1); }
      (v & m1) | (m0 & m1);
      And(v, m1) | And(m0, m1);
      Or(And(v, m1), And(m0, m1));
    }
  }

  lemma OrAnd(v: bv64, m: bv64)
    ensures And(Or(v, m), m) == m
  {
    RawOrAnd(v, m);
  }

  lemma Ands(v: bv64, m0: bv64, m1: bv64)
    ensures And(And(v, m1), m0) == And(v, And(m0, m1))
  {
    RawAnds(v, m0, m1);
  }

  lemma Out(i: bv64, m: bv64)
    ensures And(And(i, Not(m)), m) == 0
  {
    RawOut(i, m);
  }

  lemma OrOut(i: bv64, m: bv64)
    ensures Or(And(i, Not(m)), m) == Or(i, m)
  {
    calc { Or(And(i, Not(m)), m); And(i, Not(m)) | m; (i & !m) | m; { RawOrOut(i, m); } i | m; Or(i, m); }
  }

  lemma AndOut(i: bv64, m: bv64)
    ensures And(Or(i, m), Not(m)) == And(i, Not(m))
  {
    calc { And(Or(i, m), Not(m)); Or(i, m) & Not(m); (i | m) & !m; { RawAndOut(i, m); } i & !m; And(i, Not(m)); }
  }

  lemma Clear(y: bv64, m: bv64)
    requires And(y, m) == 0
    ensures And(y, Not(m)) == y
  {
    RawClear(y, m);
  }

  lemma MaskOr(v: bv64, m0: bv64, m1: bv64)
    requires And(m0, m1) == m0
    ensures And(Or(v, m0), m1) == Or(And(v, m1), m0) && And(Or(v, m0), m0) == m0
  {
    hide *;
    OrMask(v, m0, m1); OrAnd(v, m0);
  }

  lemma AdvanceIs(v: bv64, m0: bv64)
    ensures Advance(v, m0) == Or(And(Inc(Or(v, m0)), Not(m0)), And(v, m0))
  {}

  lemma AdvanceParts(v: bv64, m0: bv64, m1: bv64, y: bv64)
    requires And(m0, m1) == m0 && y == Inc(Or(v, m0)) && And(y, m0) == 0
    ensures And(Advance(v, m0), m1) == Or(And(y, m1), And(v, m0))
  {
    hide *;
    AdvanceIs(v, m0); Clear(y, m0); OrMask(y, And(v, m0), m1); Ands(v, m1, m0); AndComm(m0, m1);
  }

  lemma AndComm(a: bv64, b: bv64)
    ensures And(a, b) == And(b, a)
  {}

  lemma AdvanceApart(v: bv64, m0: bv64, m1: bv64, y: bv64)
    requires And(y, m0) == 0
    ensures And(And(y, m1), And(v, m0)) == 0
  {}

  lemma AdvanceLow(v: bv64, m0: bv64)
    ensures And(Advance(v, m0), m0) == And(v, m0)
  {}

  lemma OrOver(c: bv64, m: bv64)
    ensures And(And(c, Not(m)), And(c, m)) == 0 && Or(And(c, Not(m)), And(c, m)) == c
  {}

  lemma OverMask(i: bv64, v: bv64, m0: bv64, m1: bv64)
    requires i == And(v, m1) && And(m0, m1) == m0
    ensures And(i, m0) == And(v, m0) && And(And(i, Not(m0)), m0) == 0
    ensures Or(And(i, Not(m0)), m0) == Or(i, m0) && And(Or(i, m0), Not(m0)) == And(i, Not(m0))
  {
    hide *;
    Ands(v, m0, m1); Out(i, m0); OrOut(i, m0); AndOut(i, m0);
  }

  // Advancing moves the index in the larger table to the next expansion, skipping none.
  lemma AdvanceGap(v: bv64, m0: bv64, m1: bv64, u: bv64)
    requires LowMask(m0) && LowMask(m1) && And(m0, m1) == m0
    requires And(u, m1) == u && And(u, m0) == And(v, m0)
    requires Val(And(v, m1)) < Val(u)
    ensures !Wrapped(Advance(v, m0), m0, m1)
    ensures Val(And(v, m1)) < Val(And(Advance(v, m0), m1)) <= Val(u)
  {
    hide *;
    var i := And(v, m1);
    var top := Or(i, m0);
    OverMask(i, v, m0, m1); OverMask(u, u, m0, m1);
    OrOver(i, m0); OrOver(u, m0); ValOr(And(i, Not(m0)), And(i, m0)); ValOr(And(u, Not(m0)), And(u, m0));
    var lo, hi := And(i, Not(m0)), And(u, Not(m0));
    assert Val(lo) < Val(hi);
    if Val(hi) <= Val(top) {
      assert Or(lo, m0) == top;
      Block(lo, hi, m0);
      ClearTwice(i, m0); ClearTwice(u, m0);
      assert false;
    }
    SubsetOr(u, m0, m1);
    if top == m1 {
      AndBelow(hi, m1);
      assert false;
    }
    AdvanceIndex(v, m0, m1);
    MaskOr(v, m0, m1); IncClears(Or(v, m0), m0); AllFit(m1); IncMasked(Or(v, m0), m1, 64);
    var y := Inc(Or(v, m0));
    AdvanceParts(v, m0, m1, y); AdvanceApart(v, m0, m1, y);
    ValOr(And(y, m1), And(v, m0));
    NextAbove(top, hi);
    ValOr(lo, m0);
  }

  // Until it wraps, the index in the larger table grows.
  lemma AdvanceMoves(v: bv64, m0: bv64, m1: bv64)
    requires LowMask(m0) && LowMask(m1) && And(m0, m1) == m0 && !Wrapped(Advance(v, m0), m0, m1)
    ensures Val(And(v, m1)) < Val(And(Advance(v, m0), m1))
  {
    hide *;
    var i := And(v, m1);
    var top := Or(i, m0);
    AdvanceIndex(v, m0, m1);
    MaskOr(v, m0, m1); IncClears(Or(v, m0), m0); AllFit(m1); IncMasked(Or(v, m0), m1, 64);
    var y := Inc(Or(v, m0));
    AdvanceParts(v, m0, m1, y); AdvanceApart(v, m0, m1, y);
    ValOr(And(y, m1), And(v, m0));
    OnesAnd(Or(v, m0), m1);
    ValInc(top);
    OrAbsorbs(i, m0); AndBelow(i, top);
  }

  lemma ClearTwice(i: bv64, m: bv64)
    ensures And(And(i, Not(m)), Not(m)) == And(i, Not(m))
  {}

  lemma SubsetOr(u: bv64, m0: bv64, m1: bv64)
    requires And(u, m1) == u
    ensures And(And(u, Not(m0)), m1) == And(u, Not(m0))
  {}

  // ---- when the expansions cover the block of the cursor ----

  // The bits of the cursor in m1 above m0 are a run of low ones (or none).
  predicate Expandable(v: bv64, m0: bv64, m1: bv64) { LowMask(Or(And(v, m1), m0)) }

  // The words in the block of v that an inner loop starting at v reaches.
  predicate Reached(v: bv64, m0: bv64, m1: bv64, x: bv64) {
    And(x, m0) == And(v, m0) && Val(And(v, m1)) <= Val(And(x, m1))
  }

  lemma BelowCursor(v: bv64, m0: bv64, m1: bv64, x: bv64, c: bv64)
    requires c == Or(And(v, m1), m0) && And(x, m0) == And(v, m0)
    ensures And(And(x, c), And(v, c)) == And(x, c)
  {}

  lemma AgreeingCursor(v: bv64, m0: bv64, m1: bv64, x: bv64, c: bv64)
    requires c == Or(And(v, m1), m0) && And(x, c) == And(v, c)
    ensures And(And(v, m1), And(x, m1)) == And(v, m1)
  {}

  lemma SubsetAbove(X: bv64, V: bv64, C: bv64)
    requires And(And(X, C), And(V, C)) == And(X, C)
    ensures And(Or(X, Not(C)), Or(V, Not(C))) == Or(X, Not(C))
  {}

  lemma ExpansionCovers(v: bv64, m0: bv64, m1: bv64, x: bv64)
    requires Expandable(v, m0, m1)
    requires And(x, m0) == And(v, m0) && Order(v) <= Order(x)
    ensures Reached(v, m0, m1, x)
  {
    hide And, Or, Not, Rev, Val, LowMask, Order;
    var c := Or(And(v, m1), m0);
    var X, V, C := Rev(x), Rev(v), Rev(c);
    var L := Not(C);
    OrderVal(x); OrderVal(v);
    RevLowMask(c);
    BelowCursor(v, m0, m1, x, c);
    RevAnd(x, c); RevAnd(v, c); RevAnd(And(x, c), And(v, c));
    SubsetAbove(X, V, C);
    OrAbsorbs(X, L); AndBelow(X, Or(X, L)); AndBelow(Or(X, L), Or(V, L));
    Block(V, X, L);
    NotNot(C);
    RevRev(And(x, c)); RevRev(And(v, c));
    AgreeingCursor(v, m0, m1, x, c);
    AndBelow(And(v, m1), And(x, m1));
  }

  // The lowest bit missing from c, and the ones below it.
  function Gap(c: bv64): bv64 { (c + 1) & !c }

  function UpToGap(c: bv64): bv64 { c ^ (c + 1) }

  lemma GapMask(c: bv64)
    ensures LowMask(UpToGap(c)) && And(Gap(c), c) == 0
  {}

  lemma GapWithin(c: bv64, m: bv64)
    requires LowMask(m) && And(c, m) == c && !LowMask(c)
    ensures And(UpToGap(c), m) == UpToGap(c)
  {}

  lemma GapInMask(c: bv64, m: bv64)
    requires LowMask(m) && And(c, m) == c && !LowMask(c)
    ensures And(Gap(c), m) == Gap(c)
  {}

  lemma GapLeaves(c: bv64)
    requires !LowMask(c)
    ensures And(c, Not(UpToGap(c))) != 0
  {}

  lemma GapHolds(c: bv64, m: bv64)
    requires LowMask(m) && And(c, m) == m
    ensures And(UpToGap(c), m) == m
  {}

  lemma GapLeavesCursor(v: bv64, m0: bv64, m1: bv64, c: bv64, p: bv64)
    requires c == Or(And(v, m1), m0) && And(c, Not(p)) != 0 && And(p, m0) == m0
    ensures And(And(v, m1), Not(p)) != 0
  {}

  lemma RawGapRev(c: bv64)
    ensures c != ONES ==> Rev(Gap(c)) == !Rev(UpToGap(c)) + 1
  {}

  lemma GapRev(c: bv64)
    requires c != ONES
    ensures Rev(Gap(c)) == Inc(Not(Rev(UpToGap(c))))
  {
    hide Rev, Gap, UpToGap;
    RawGapRev(c);
  }

  lemma GapParts(c: bv64)
    requires c != ONES
    ensures UpToGap(c) == Or(Gap(c), Pred(Gap(c))) && And(Pred(Gap(c)), c) == Pred(Gap(c))
  {}

  lemma GapBelow(v: bv64, m0: bv64, m1: bv64, c: bv64, q: bv64)
    requires c == Or(And(v, m1), m0) && And(q, c) == q
    ensures And(q, Or(v, m0)) == q
  {}

  lemma BelowGap(v: bv64, m0: bv64, q: bv64)
    requires And(q, Or(v, m0)) == q && And(m0, q) == m0
    ensures Or(And(q, Not(m0)), And(v, m0)) == And(v, q)
  {}

  lemma AboveLow(w: bv64, q: bv64, m0: bv64)
    requires And(w, m0) == 0
    ensures And(Or(w, q), Not(m0)) == Or(w, And(q, Not(m0)))
  {
    hide *;
    OrMask(w, q, Not(m0));
    Clear(w, m0);
  }

  lemma WithoutGap(v: bv64, w: bv64, q: bv64)
    requires And(And(v, Or(w, q)), w) == 0
    ensures And(v, Or(w, q)) == And(v, q)
  {}

  lemma OrSwap(w: bv64, a: bv64, b: bv64)
    ensures Or(Or(w, a), b) == Or(Or(a, b), w)
  {}

  lemma GapAdds(v: bv64, m0: bv64, w: bv64, q: bv64, p: bv64)
    requires And(q, Or(v, m0)) == q && p == Or(w, q) && And(m0, q) == m0 && And(And(v, p), w) == 0 && And(w, m0) == 0
    ensures Or(And(p, Not(m0)), And(v, m0)) == Or(And(v, p), w)
  {
    hide *;
    BelowGap(v, m0, q); AboveLow(w, q, m0); WithoutGap(v, w, q);
    OrSwap(w, And(q, Not(m0)), And(v, m0));
  }

  lemma GapMissing(v: bv64, m0: bv64, m1: bv64, c: bv64, w: bv64, p: bv64)
    requires c == Or(And(v, m1), m0) && And(w, c) == 0 && And(w, m1) == w
    ensures And(And(v, p), w) == 0
  {}

  lemma PatchLow(v: bv64, m0: bv64, p: bv64, x: bv64)
    requires x == Or(And(p, Not(m0)), And(v, m0))
    ensures And(x, m0) == And(v, m0)
  {}

  lemma PatchWithin(v: bv64, m0: bv64, m1: bv64, p: bv64, x: bv64)
    requires x == Or(And(p, Not(m0)), And(v, m0)) && And(p, m1) == p && And(m0, m1) == m0
    ensures And(x, m1) == x {}

  lemma NotOnes(c: bv64)
    requires !LowMask(c)
    ensures c != ONES
  {}

  lemma CursorMasks(v: bv64, m0: bv64, m1: bv64, c: bv64)
    requires c == Or(And(v, m1), m0) && And(m0, m1) == m0
    ensures And(c, m1) == c && And(c, m0) == m0 {}

  lemma ExpansionMisses(v: bv64, m0: bv64, m1: bv64) returns (x: bv64)
    requires LowMask(m0) && LowMask(m1) && And(m0, m1) == m0
    requires !Expandable(v, m0, m1)
    ensures And(x, m1) == x && And(x, m0) == And(v, m0) && Order(v) < Order(x)
    ensures !Reached(v, m0, m1, x)
  {
    hide And, Or, Not, Rev, Val, LowMask, Order, Inc, Gap, UpToGap, Pred;
    var c := Or(And(v, m1), m0);
    var p, w := UpToGap(c), Gap(c);
    x := Or(And(p, Not(m0)), And(v, m0));
    NotOnes(c); CursorMasks(v, m0, m1, c);
    GapMask(c); GapWithin(c, m1); GapInMask(c, m1); GapParts(c); GapHolds(c, m0);
    PatchLow(v, m0, p, x); PatchWithin(v, m0, m1, p, x);
    PredHolds(m0, p, w, c);
    GapMissing(v, m0, m1, c, w, p); GapBelow(v, m0, m1, c, Pred(w)); GapApart(c, m0, w);
    GapAdds(v, m0, w, Pred(w), p);
    PatchBelow(v, m0, p, x);
    OrderAbove(v, x, p, w, c);
    // The cursor's index has a bit above the gap, the missed index has none.
    GapLeaves(c); GapLeavesCursor(v, m0, m1, c, p);
    if Val(And(v, m1)) <= Val(x) {
      AndBelow(x, p);
      Zeroes(p); ZeroOr(p); ValZero();
      Block(0, And(v, m1), p);
      ZeroAnd(Not(p));
      assert false;
    }
  }

  lemma GapApart(c: bv64, m0: bv64, w: bv64)
    requires And(w, c) == 0 && And(c, m0) == m0
    ensures And(w, m0) == 0
  {}

  lemma ZeroOr(p: bv64)
    ensures Or(0, p) == p
  {}

  lemma ZeroAnd(p: bv64)
    ensures And(0, p) == 0
  {}

  lemma PatchBelow(v: bv64, m0: bv64, p: bv64, x: bv64)
    requires x == Or(And(p, Not(m0)), And(v, m0)) && And(p, m0) == m0
    ensures And(x, p) == x
  {}

  lemma PredHolds(m0: bv64, p: bv64, w: bv64, c: bv64)
    requires p == Or(w, Pred(w)) && And(p, m0) == m0 && And(w, c) == 0 && And(c, m0) == m0
    ensures And(m0, Pred(w)) == m0
  {}

  lemma OrderAbove(v: bv64, x: bv64, p: bv64, w: bv64, c: bv64)
    requires p == UpToGap(c) && w == Gap(c) && c != ONES && LowMask(p)
    requires And(x, p) == Or(And(v, p), w) && And(And(v, p), w) == 0
    ensures Order(v) < Order(x)
  {
    hide *;
    var X, V, P, W := Rev(x), Rev(v), Rev(p), Rev(w);
    var L := Not(P);
    OrderVal(x); OrderVal(v);
    GapRev(c);
    assert W == Inc(L);
    RevAnd(x, p); RevAnd(v, p); RevOr(And(v, p), w); RevAnd(And(v, p), w); RevZero();
    assert And(X, P) == Or(And(V, P), W);
    ValOr(And(V, P), W);
    OrOver(V, P); ValOr(And(V, Not(P)), And(V, P));
    AndBelow(V, L);
    RevNonZero(w, c);
    ValIncNonZero(L);
    AndComm(X, P); AndBelow(P, X);
  }

  lemma RevNonZero(w: bv64, c: bv64)
    requires w == Gap(c) && c != ONES
    ensures Rev(w) != 0
  {
    hide Rev;
    RevRev(w);
    RevZero();
    GapNonZero(c);
  }

  lemma GapNonZero(c: bv64)
    requires c != ONES
    ensures Gap(c) != 0
  {}

  lemma ValIncNonZero(v: bv64)
    requires Inc(v) != 0
    ensures Val(Inc(v)) == Val(v) + 1
  {
    hide Val;
    IncWraps(v);
    ValInc(v);
  }

  // A mid-rehash call reaches everything in its block that is still to be visited, if and
  // only if the cursor's expansion bits are a run of low ones.
  lemma ReachedExactly(v: bv64, m0: bv64, m1: bv64)
    requires LowMask(m0) && LowMask(m1) && And(m0, m1) == m0
    ensures Expandable(v, m0, m1) <==>
            forall x :: And(x, m0) == And(v, m0) && Order(v) <= Order(x) ==> Reached(v, m0, m1, x)
  {
    hide *;
    if Expandable(v, m0, m1) {
      forall x | And(x, m0) == And(v, m0) && Order(v) <= Order(x) ensures Reached(v, m0, m1, x) {
        ExpansionCovers(v, m0, m1, x);
      }
    } else {
      var x := ExpansionMisses(v, m0, m1);
    }
  }

  // No expansion bits, or sizes that differ by a factor of two, always meet the condition.
  lemma NoExpansionBits(v: bv64, m0: bv64, m1: bv64)
    requires LowMask(m0) && And(m0, m1) == m0 && v & (m0 ^ m1) == 0
    ensures Expandable(v, m0, m1)
  {}

  lemma DoubledMask(v: bv64, m0: bv64, m1: bv64)
    requires LowMask(m0) && m1 == Or(Twice(m0), 1)
    ensures Expandable(v, m0, m1)
  {}

  // One turn of the inner loop adds the words at the index of u to those reached so far.
  lemma ReachedStep(v: bv64, u: bv64, m0: bv64, m1: bv64, x: bv64)
    requires LowMask(m0) && LowMask(m1) && And(m0, m1) == m0
    requires And(u, m0) == And(v, m0) && Val(And(v, m1)) <= Val(And(u, m1))
    ensures var w := Advance(u, m0);
      (And(x, m1) == And(u, m1) || (Reached(v, m0, m1, x) && Val(And(x, m1)) < Val(And(u, m1)))) <==>
      (Reached(v, m0, m1, x) && (Wrapped(w, m0, m1) || Val(And(x, m1)) < Val(And(w, m1))))
  {
    hide Val, And, LowMask, Advance, Wrapped;
    if !Wrapped(Advance(u, m0), m0, m1) { AdvanceMoves(u, m0, m1); }
    if And(x, m1) == And(u, m1) {
      SameLow(x, u, m0, m1);
    } else if Val(And(x, m1)) == Val(And(u, m1)) {
      ValInjective(And(x, m1), And(u, m1));
      assert false;
    } else if And(x, m0) == And(v, m0) && Val(And(u, m1)) < Val(And(x, m1)) {
      Ands(x, m0, m1); AndTwice(x, m1);
      AdvanceGap(u, m0, m1, And(x, m1));
    }
  }

  lemma SameLow(x: bv64, u: bv64, m0: bv64, m1: bv64)
    requires And(x, m1) == And(u, m1) && And(m0, m1) == m0
    ensures And(x, m0) == And(u, m0)
  {
    hide And;
    Ands(x, m0, m1); Ands(u, m0, m1);
  }

  lemma AndTwice(x: bv64, m: bv64)
    ensures And(And(x, m), m) == And(x, m)
  {}
}
