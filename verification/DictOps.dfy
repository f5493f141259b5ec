// The public operations of dict.c as transitions, and what they mean for the set of entries.
module DictOps {
  import opened Words
  import opened DictModel
  import opened DictRehash

  const LONG_MAX: nat := 0x7FFF_FFFF_FFFF_FFFF
  const DICT_HT_INITIAL_SIZE: nat := 4
  const DICT_FORCE_RESIZE_RATIO: nat := 5

  // ---- table sizes ----

  // _dictNextPower, from the candidate i on.
  function NextPower(i: bv64, size: nat): bv64
    requires OneBit(i) && size < LONG_MAX
    decreases size - Val(i)
  {
    if Val(i) >= size then i
    else
      TwiceVal(i);
      OneBitPositive(i);
      NextPower(Twice(i), size)
  }

  lemma OneBitPositive(i: bv64)
    requires OneBit(i)
    ensures Val(i) > 0
  {
    hide OneBit, Val;
    PredVal(i);
  }

  lemma {:induction false} NextPowerLeast(i: bv64, size: nat)
    requires OneBit(i) && size < LONG_MAX
    ensures OneBit(NextPower(i, size))
    ensures size <= Val(NextPower(i, size)) && Val(i) <= Val(NextPower(i, size))
    ensures Val(NextPower(i, size)) > Val(i) ==> Val(NextPower(i, size)) < 2 * size
    decreases size - Val(i)
  {
    hide OneBit, Val;
    if Val(i) < size {
      TwiceVal(i);
      OneBitPositive(i);
      NextPowerLeast(Twice(i), size);
    }
  }

  lemma FourIsOneBit()
    ensures OneBit(4) && Val(4) == 4
  {
    assert Half(4) == 2 && Half(2) == 1 && Half(1) == 0 && Bit0(4) == 0 && Bit0(2) == 0 && Bit0(1) == 1;
    LowZero(61);
    hide Half, Bit0;
    assert Low(1, 62) == 1;
    assert Low(2, 63) == 2;
  }

  // realsize of dictExpand
  function RealSize(size: nat): bv64
    requires size < LONG_MAX
  {
    FourIsOneBit();
    NextPower(4, size)
  }

  lemma RealSizeIs(size: nat)
    requires size < LONG_MAX
    ensures var i := RealSize(size);
      OneBit(i) && Val(i) >= 4 && Val(i) >= size && (Val(i) > 4 ==> Val(i) < 2 * size)
  {
    hide OneBit, Val;
    FourIsOneBit();
    NextPowerLeast(4, size);
  }

  function EmptyTable(i: bv64): (t: Table)
  {
    Table(seq(Val(i), _ => []), Pred(i))
  }

  lemma {:induction false} EmptyTableOk(h: Hash, i: bv64)
    requires OneBit(i)
    ensures TableOk(h, EmptyTable(i)) && |EmptyTable(i).buckets| == Val(i) > 0
    ensures Members(EmptyTable(i)) == {}
    ensures Count(EmptyTable(i).buckets) == 0
  {
    hide OneBit, Val, LowMask, Slot, Pred;
    PredVal(i);
    EmptyCount(EmptyTable(i).buckets);
  }

  // ---- dictExpand and _dictExpandIfNeeded ----

  datatype Outcome = Outcome(s: DictState, ok: bool)

  function Expand(s: DictState, size: nat): Outcome
    requires size < LONG_MAX
  {
    var realsize := RealSize(size);
    if Rehashing(s) || Count(s.t0.buckets) > size then Outcome(s, false)
    else if Val(realsize) == |s.t0.buckets| then Outcome(s, false)
    else if |s.t0.buckets| == 0 then Outcome(s.(t0 := EmptyTable(realsize)), true)
    else Outcome(DictState(s.t0, EmptyTable(realsize), 0), true)
  }

  lemma ExpandKeeps(h: Hash, s: DictState, size: nat)
    requires Inv(h, s) && size < LONG_MAX
    ensures Inv(h, Expand(s, size).s)
    ensures Stored(Expand(s, size).s) == Stored(s)
    ensures Expand(s, size).ok <==>
      !Rehashing(s) && Count(s.t0.buckets) <= size && Val(RealSize(size)) != |s.t0.buckets|
    ensures Expand(s, size).ok && |s.t0.buckets| != 0 ==> Rehashing(Expand(s, size).s) && Expand(s, size).s.t0 == s.t0
  {
    hide OneBit, Val, LowMask, Slot, EmptyTable, RealSize;
    RealSizeIs(size);
    EmptyTableOk(h, RealSize(size));
  }

  function ExpandIfNeeded(s: DictState, canResize: bool): Outcome
    requires Count(s.t0.buckets) * 2 < LONG_MAX
  {
    var used, size := Count(s.t0.buckets), |s.t0.buckets|;
    if Rehashing(s) then Outcome(s, true)
    else if size == 0 then Expand(s, DICT_HT_INITIAL_SIZE)
    else if used >= size && (canResize || used / size > DICT_FORCE_RESIZE_RATIO) then Expand(s, used * 2)
    else Outcome(s, true)
  }

  // Growing on demand never fails, so dictAdd fails only because of the key.
  lemma ExpandIfNeededKeeps(h: Hash, s: DictState, canResize: bool)
    requires Inv(h, s) && Count(s.t0.buckets) * 2 < LONG_MAX
    ensures ExpandIfNeeded(s, canResize).ok
    ensures var s' := ExpandIfNeeded(s, canResize).s;
      Inv(h, s') && |s'.t0.buckets| > 0 && Stored(s') == Stored(s)
  {
    hide OneBit, Val, LowMask, Slot, EmptyTable, RealSize;
    var used, size := Count(s.t0.buckets), |s.t0.buckets|;
    if !Rehashing(s) {
      if size == 0 {
        RealSizeIs(4);
        ExpandKeeps(h, s, 4);
        EmptyTableOk(h, RealSize(4));
      } else if used >= size && (canResize || used / size > 5) {
        RealSizeIs(used * 2);
        ExpandKeeps(h, s, used * 2);
      }
    }
  }

  // What makes a table with buckets grow
  predicate Full(s: DictState, canResize: bool) {
    var used, size := Count(s.t0.buckets), |s.t0.buckets|;
    !Rehashing(s) && size > 0 && used >= size && (canResize || used / size > DICT_FORCE_RESIZE_RATIO)
  }

  // A rehash starts exactly when the table is full, into at least twice as many buckets as it
  // has entries and less than four times as many, or four; the first table gets four buckets.
  lemma GrowsExactly(h: Hash, s: DictState, canResize: bool)
    requires Inv(h, s) && Count(s.t0.buckets) * 2 < LONG_MAX
    ensures var s', used := ExpandIfNeeded(s, canResize).s, Count(s.t0.buckets);
      && (Rehashing(s') <==> Rehashing(s) || Full(s, canResize)) && !Full(s', canResize)
      && (Full(s, canResize) ==>
        && s'.t0 == s.t0 && s'.rehashidx == 0 && Members(s'.t1) == {}
        && |s'.t1.buckets| >= 2 * used && (|s'.t1.buckets| == 4 || |s'.t1.buckets| < 4 * used))
      && (!Rehashing(s) && |s.t0.buckets| == 0 ==> |s'.t0.buckets| == 4)
      && (!Full(s, canResize) && |s.t0.buckets| > 0 ==> s' == s)
  {
    hide OneBit, Val, LowMask, Slot, EmptyTable, RealSize, Members;
    var used, size := Count(s.t0.buckets), |s.t0.buckets|;
    if !Rehashing(s) && size == 0 {
      FourBuckets(h);
    } else if Full(s, canResize) {
      RealSizeIs(used * 2);
      EmptyTableOk(h, RealSize(used * 2));
    }
  }

  lemma FourBuckets(h: Hash)
    ensures Val(RealSize(4)) == 4
    ensures |EmptyTable(RealSize(4)).buckets| == 4 && Count(EmptyTable(RealSize(4)).buckets) == 0
  {
    hide OneBit, Val, EmptyTable;
    FourIsOneBit();
    EmptyTableOk(h, RealSize(4));
  }

  // ---- lookups and updates ----

  // _dictRehashStep
  function Step(h: Hash, s: DictState, iterators: nat): DictState
    requires Inv(h, s)
  {
    if iterators == 0 then Rehash(h, s, 1) else s
  }

  lemma StepKeeps(h: Hash, s: DictState, iterators: nat)
    requires Inv(h, s)
    ensures Inv(h, Step(h, s, iterators))
    ensures Stored(Step(h, s, iterators)) == Stored(s)
    ensures |Filled(Step(h, s, iterators)).buckets| == |Filled(s).buckets|
    ensures Count(Step(h, s, iterators).t0.buckets) + Count(Step(h, s, iterators).t1.buckets) ==
      Count(s.t0.buckets) + Count(s.t1.buckets)
  {
    hide Rehash;
    RehashKeeps(h, s, 1);
  }

  // With no iterator registered a step of a rehash moves the next bucket that is not
  // empty, or passes ten empty ones, or ends the rehash.
  lemma StepMoves(h: Hash, s: DictState)
    requires Inv(h, s) && Rehashing(s)
    ensures var s' := Step(h, s, 0);
      if Rehashing(s') then
        && s.rehashidx < s'.rehashidx < |s.t0.buckets|
        && (NonEmpty(s.t0.buckets, s.rehashidx, s'.rehashidx) == 1
          || (NonEmpty(s.t0.buckets, s.rehashidx, s'.rehashidx) == 0 && s'.rehashidx == s.rehashidx + 10))
      else |s'.t0.buckets| == |s.t1.buckets| && s'.t1 == NoTable
  {
    hide Rehash, NonEmpty, Val, LowMask, BucketOk, Members;
    RehashWork(h, s, 1);
  }

  const MAX_BUCKETS: nat := 0x8000_0000

  // Doubling the number of entries stays below the cap of _dictNextPower.
  predicate CountFits(s: DictState) { (Count(s.t0.buckets) + Count(s.t1.buckets)) * 2 < LONG_MAX }

  // Every bucket number of the table being filled, the one insertion is concerned with, is a C int.
  predicate BucketsFit(s: DictState) { |Filled(s).buckets| <= MAX_BUCKETS }

  lemma StepFits(h: Hash, s: DictState, iterators: nat)
    requires Inv(h, s) && CountFits(s)
    ensures CountFits(Step(h, s, iterators)) && Inv(h, Step(h, s, iterators))
  {
    hide Inv, Members, Step;
    StepKeeps(h, s, iterators);
  }

  // The state in which dictAddRaw inserts: one rehash step, then growth if needed.
  function Ready(h: Hash, s: DictState, iterators: nat, canResize: bool): (s': DictState)
    requires Inv(h, s) && CountFits(s)
    ensures Inv(h, s') && |s'.t0.buckets| > 0 && Stored(s') == Stored(s)
  {
    StepFits(h, s, iterators);
    StepKeeps(h, s, iterators);
    ExpandIfNeededKeeps(h, Step(h, s, iterators), canResize);
    ExpandIfNeeded(Step(h, s, iterators), canResize).s
  }

  lemma ReadyIs(h: Hash, s: DictState, iterators: nat, canResize: bool)
    requires Inv(h, s) && CountFits(s)
    ensures CountFits(Step(h, s, iterators))
      && Ready(h, s, iterators, canResize) == ExpandIfNeeded(Step(h, s, iterators), canResize).s
  {
    StepFits(h, s, iterators);
  }

  // The table an insertion finds has bucket numbers that are C ints.
  predicate IntFits(h: Hash, s: DictState, iterators: nat, canResize: bool)
    requires Inv(h, s)
  {
    CountFits(s) && BucketsFit(Ready(h, s, iterators, canResize))
  }

  // A table within the bound is followed by one within it up to 2^29 keys.
  lemma FewKeysFit(h: Hash, s: DictState, iterators: nat, canResize: bool)
    requires Inv(h, s) && BucketsFit(s) && Count(s.t0.buckets) + Count(s.t1.buckets) <= 0x2000_0000
    ensures IntFits(h, s, iterators, canResize)
  {
    hide Inv, Members, Step, ExpandIfNeeded;
    StepFits(h, s, iterators);
    StepKeeps(h, s, iterators);
    GrowthFits(h, Step(h, s, iterators), canResize);
  }

  lemma GrowthFits(h: Hash, s: DictState, canResize: bool)
    requires Inv(h, s) && BucketsFit(s) && Count(s.t0.buckets) + Count(s.t1.buckets) <= 0x2000_0000
    ensures BucketsFit(ExpandIfNeeded(s, canResize).s)
  {
    hide Val, OneBit, TableOk, Sized, Disjoint, EmptyTable, RealSize;
    RealSizeIs(4); EmptyTableOk(h, RealSize(4));
    RealSizeIs(Count(s.t0.buckets) * 2); EmptyTableOk(h, RealSize(Count(s.t0.buckets) * 2));
  }

  // The search in both tables.
  function Search(h: Hash, s: DictState, key: Key): Entry?
    requires Sized(s.t0) && Sized(s.t1)
  {
    var e := Lookup(h, s.t0, key);
    if e != null || !Rehashing(s) then e else Lookup(h, s.t1, key)
  }

  ghost predicate StoredKey(s: DictState, key: Key) {
    exists e :: e in Stored(s) && e.key == key
  }

  lemma SearchFinds(h: Hash, s: DictState, key: Key)
    requires Inv(h, s)
    ensures var e := Search(h, s, key);
      if StoredKey(s, key) then e != null && e in Stored(s) && e.key == key else e == null
  {
    hide Lookup, BucketOk, Slot, Sized, Members;
    NoTableEmpty(); NoTableOk(h);
    LookupFinds(h, s.t0, key);
    LookupFinds(h, s.t1, key);
    if StoredKey(s, key) {
      var e :| e in Stored(s) && e.key == key;
      assert HasKey(s.t0, key) || HasKey(s.t1, key);
    }
  }

  lemma NoTableOk(h: Hash)
    ensures TableOk(h, NoTable)
  {}

  lemma NoTableEmpty()
    ensures Members(NoTable) == {} && Count(NoTable.buckets) == 0
  {}

  lemma SizedTables(h: Hash, s: DictState)
    requires Inv(h, s)
    ensures Sized(s.t0) && Sized(s.t1) && (Rehashing(s) ==> |s.t1.buckets| > 0)
  {
    NoTableOk(h);
  }

  // Each key has one entry.
  lemma UniqueEntry(h: Hash, s: DictState, e: Entry, f: Entry)
    requires Inv(h, s) && e in Stored(s) && f in Stored(s) && e.key == f.key
    ensures e == f
  {
    hide BucketOk, Slot, Sized, Members;
    NoTableEmpty();
    if e in Members(s.t0) && f in Members(s.t0) { OneEntryPerKey(h, s.t0, e, f); }
    if e in Members(s.t1) && f in Members(s.t1) { OneEntryPerKey(h, s.t1, e, f); }
  }

  // Insert a new entry at the head of its bucket in the table being filled.
  function Insert(h: Hash, s: DictState, e: Entry): DictState
    requires Inv(h, s) && |s.t0.buckets| > 0
  {
    if Rehashing(s) then s.(t1 := Push(h, s.t1, e)) else s.(t0 := Push(h, s.t0, e))
  }

  lemma InsertAdds(h: Hash, s: DictState, e: Entry)
    requires Inv(h, s) && |s.t0.buckets| > 0 && !StoredKey(s, e.key)
    ensures Inv(h, Insert(h, s, e))
    ensures Stored(Insert(h, s, e)) == Stored(s) + {e}
    ensures var s' := Insert(h, s, e);
      if Rehashing(s) then s'.t0 == s.t0 && Count(s'.t1.buckets) == Count(s.t1.buckets) + 1
      else s'.t1 == s.t1 && Count(s'.t0.buckets) == Count(s.t0.buckets) + 1
  {
    hide Slot, BucketOk, Push, Sized, Members;
    if Rehashing(s) {
      PushAdds(h, s.t1, e);
    } else {
      PushAdds(h, s.t0, e);
    }
  }

  // Unlink the entry with the key from the first table that has it.
  function Remove(h: Hash, s: DictState, key: Key): DictState
    requires Sized(s.t0) && Sized(s.t1) && Search(h, s, key) != null
  {
    if Lookup(h, s.t0, key) != null then
      SlotInRange(h, key, s.t0);
      var b := Slot(h, key, s.t0.mask);
      s.(t0 := Unlink(s.t0, b, Locate(s.t0.buckets[b], key)))
    else
      SlotInRange(h, key, s.t1);
      var b := Slot(h, key, s.t1.mask);
      s.(t1 := Unlink(s.t1, b, Locate(s.t1.buckets[b], key)))
  }

  // dictGenericDelete: one rehash step, then the entry with the key, if any, is unlinked.
  function Erased(h: Hash, s: DictState, iterators: nat, key: Key): DictState
    requires Inv(h, s)
  {
    if |s.t0.buckets| == 0 then s else
      StepKeeps(h, s, iterators);
      var s' := Step(h, s, iterators);
      SizedTables(h, s');
      if Search(h, s', key) == null then s' else Remove(h, s', key)
  }

  lemma RemoveRemoves(h: Hash, s: DictState, key: Key)
    requires Inv(h, s) && Search(h, s, key) != null
    ensures Inv(h, Remove(h, s, key))
    ensures Stored(Remove(h, s, key)) == Stored(s) - {Search(h, s, key)}
  {
    hide Slot, BucketOk, Val, LowMask, Members;
    var e := Search(h, s, key);
    SearchFinds(h, s, key);
    LookupFinds(h, s.t0, key);
    NoTableEmpty();
    var s' := Remove(h, s, key);
    if Lookup(h, s.t0, key) != null {
      SlotInRange(h, key, s.t0);
      var b := Slot(h, key, s.t0.mask);
      UnlinkRemoves(h, s.t0, b, Locate(s.t0.buckets[b], key));
      assert e !in Members(s.t1);
      if Rehashing(s) { UnlinkEmpties(s.t0, b, Locate(s.t0.buckets[b], key), s.rehashidx); }
    } else {
      SlotInRange(h, key, s.t1);
      var b := Slot(h, key, s.t1.mask);
      UnlinkRemoves(h, s.t1, b, Locate(s.t1.buckets[b], key));
      assert e !in Members(s.t0);
    }
  }

  lemma UnlinkEmpties(t: Table, b: nat, i: nat, idx: nat)
    requires b < |t.buckets| && i < |t.buckets[b]| && idx <= |t.buckets|
    requires forall d :: 0 <= d < idx ==> t.buckets[d] == []
    ensures forall d :: 0 <= d < idx ==> Unlink(t, b, i).buckets[d] == []
  {}
}
