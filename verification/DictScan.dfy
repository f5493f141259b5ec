// dictScan: what one call emits, and what a whole scan covers while the dictionary changes.
module DictScan {
  import opened Words
  import opened Cursor
  import opened DictModel
  import opened DictRehash
  import opened DictOps

  function HashOf(h: Hash, e: Entry): bv64 { Wide(h(e.key)) }

  // t0 and t1 of dictScan: the smaller and the bigger table.
  function Smaller(s: DictState): Table {
    if Rehashing(s) && |s.t0.buckets| > |s.t1.buckets| then s.t1 else s.t0
  }

  function Larger(s: DictState): Table
    requires Rehashing(s)
  {
    if |s.t0.buckets| > |s.t1.buckets| then s.t0 else s.t1
  }

  // The entries emitted by a call with cursor v.
  ghost function Scanned(h: Hash, s: DictState, v: bv64): set<Entry> {
    var m0 := Smaller(s).mask;
    AtCursor(h, Smaller(s), v) + (if Rehashing(s) then Expanded(h, Larger(s), v, m0) else {})
  }

  // The entries of a table in the bucket at the cursor.
  ghost function AtCursor(h: Hash, t: Table, v: bv64): set<Entry> {
    set e | e in Members(t) && And(HashOf(h, e), t.mask) == And(v, t.mask)
  }

  // The entries of the larger table reached by counting up the cursor's bits above m0.
  ghost function Expanded(h: Hash, t: Table, v: bv64, m0: bv64): set<Entry> {
    set e | e in Members(t) && Reached(v, m0, t.mask, HashOf(h, e))
  }

  ghost function ToSet(c: seq<Entry>): set<Entry> { set e | e in c }

  // The cursor it returns.
  function ScanNext(s: DictState, v: bv64): bv64 {
    if Count(s.t0.buckets) + Count(s.t1.buckets) == 0 then 0 else Next(v, Smaller(s).mask)
  }

  // During a rehash, the cursor's bits between the two masks are a run of low ones.
  ghost predicate Expands(s: DictState, v: bv64) {
    Rehashing(s) ==> Expandable(v, Smaller(s).mask, Larger(s).mask)
  }

  lemma MasksNest(h: Hash, s: DictState)
    requires Inv(h, s) && |s.t0.buckets| > 0
    ensures LowMask(Smaller(s).mask) && Sized(Smaller(s)) && |Smaller(s).buckets| > 0
    ensures Rehashing(s) ==>
      && Sized(Larger(s)) && LowMask(Larger(s).mask) && |Larger(s).buckets| > 0
      && And(Smaller(s).mask, Larger(s).mask) == Smaller(s).mask
  {
    hide Val, And, LowMask, BucketOk, Members;
    if Rehashing(s) {
      NestedMasks(Smaller(s).mask, Larger(s).mask);
    }
  }

  lemma NestedMasks(m0: bv64, m1: bv64)
    requires LowMask(m0) && LowMask(m1) && Val(m0) <= Val(m1)
    ensures And(m0, m1) == m0
  {
    hide Val, And, LowMask;
    EitherMask(m0, m1);
    if And(m0, m1) == m1 {
      AndComm(m0, m1);
      AndBelow(m1, m0);
      ValInjective(m0, m1);
      AndSelf(m0);
    }
  }

  lemma EitherMask(m0: bv64, m1: bv64)
    requires LowMask(m0) && LowMask(m1)
    ensures And(m0, m1) == m0 || And(m0, m1) == m1
  {}

  lemma AndSelf(m: bv64)
    ensures And(m, m) == m
  {}

  lemma StoredCounts(h: Hash, s: DictState, e: Entry)
    requires Inv(h, s) && e in Stored(s)
    ensures Count(s.t0.buckets) + Count(s.t1.buckets) != 0 && |s.t0.buckets| > 0
  {
    hide Slot, Val, LowMask, BucketOk;
    EmptyCount(s.t0.buckets);
    EmptyCount(s.t1.buckets);
  }

  // One call: an entry still to be visited is emitted, or stays ahead of the returned cursor.
  lemma ScanStep(h: Hash, s: DictState, v: bv64, e: Entry)
    requires Inv(h, s) && e in Stored(s) && Expands(s, v)
    requires Order(v) <= Order(HashOf(h, e))
    ensures e in Scanned(h, s, v) || (ScanNext(s, v) != 0 && Order(ScanNext(s, v)) <= Order(HashOf(h, e)))
  {
    hide Val, And, LowMask, BucketOk, Members, Order, Next, Expandable, Reached, HashOf, Count, TableOk;
    StoredCounts(h, s, e);
    MasksNest(h, s);
    NoTableEmpty();
    var m0 := Smaller(s).mask;
    if And(HashOf(h, e), m0) == And(v, m0) {
      if Rehashing(s) { ExpansionCovers(v, m0, Larger(s).mask, HashOf(h, e)); }
    } else {
      NextCovers(v, m0, HashOf(h, e));
    }
  }

  // One call stays in the bucket at the cursor and in its expansions. With no bits
  // of the cursor between the masks it emits all that is in them.
  lemma ScanBlock(h: Hash, s: DictState, v: bv64, e: Entry)
    requires Inv(h, s) && |s.t0.buckets| > 0
    ensures e in Scanned(h, s, v) ==> e in Stored(s) && And(HashOf(h, e), Smaller(s).mask) == And(v, Smaller(s).mask)
    ensures e in Stored(s) && And(HashOf(h, e), Smaller(s).mask) == And(v, Smaller(s).mask) ==>
      (Rehashing(s) ==> And(v, Larger(s).mask) == And(v, Smaller(s).mask)) ==> e in Scanned(h, s, v)
  {
    hide Val, And, LowMask, BucketOk, Members, HashOf, Count;
    MasksNest(h, s);
    NoTableEmpty();
    if Rehashing(s) && And(HashOf(h, e), Smaller(s).mask) == And(v, Smaller(s).mask) {
      MaskBelow(HashOf(h, e), Smaller(s).mask, Larger(s).mask);
    }
  }

  // Nothing is emitted of an empty dictionary, and its scan is over at once.
  lemma ScanEmpty(h: Hash, s: DictState, v: bv64)
    requires Inv(h, s) && Stored(s) == {}
    ensures ScanNext(s, v) == 0 && Scanned(h, s, v) == {}
  {
    hide Next, Slot, Val, LowMask, BucketOk;
    EmptyCount(s.t0.buckets);
    EmptyCount(s.t1.buckets);
    NoMembers(s.t0);
    NoMembers(s.t1);
  }

  lemma NoMembers(t: Table)
    ensures Members(t) != {} || forall b :: 0 <= b < |t.buckets| ==> t.buckets[b] == []
  {
    if b :| 0 <= b < |t.buckets| && t.buckets[b] != [] { assert t.buckets[b][0] in Members(t); }
  }

  lemma MaskBelow(x: bv64, m0: bv64, m1: bv64)
    requires And(m0, m1) == m0
    ensures Val(And(x, m0)) <= Val(And(x, m1))
  {
    hide Val, And;
    AndBelow(m0, And(x, m1));
    AndInner(x, m0, m1);
  }

  lemma AndInner(x: bv64, m0: bv64, m1: bv64)
    requires And(m0, m1) == m0
    ensures And(m0, And(x, m1)) == And(x, m0)
  {}

  // ---- whole scans ----

  // A call of a scan: the dictionary at that time, and the cursor passed in.
  datatype Call = Call(s: DictState, v: bv64)

  // From cursor 0, feeding back the returned cursor until it is 0. Between two calls the
  // dictionary may have changed in any way.
  ghost predicate WholeScan(h: Hash, calls: seq<Call>) {
    && |calls| > 0 && calls[0].v == 0
    && (forall i :: 0 <= i < |calls| ==> Inv(h, calls[i].s))
    && (forall i :: 0 <= i < |calls| - 1 ==> calls[i + 1].v == ScanNext(calls[i].s, calls[i].v))
    && ScanNext(calls[|calls| - 1].s, calls[|calls| - 1].v) == 0
  }

  ghost predicate EmittedAt(h: Hash, c: Call, key: Key) {
    exists e :: e in Scanned(h, c.s, c.v) && e.key == key
  }

  // Every key present at all the calls is emitted by one of them.
  lemma ScanCoverage(h: Hash, calls: seq<Call>, key: Key)
    requires WholeScan(h, calls)
    requires forall i :: 0 <= i < |calls| ==> StoredKey(calls[i].s, key) && Expands(calls[i].s, calls[i].v)
    ensures exists i :: 0 <= i < |calls| && EmittedAt(h, calls[i], key)
  {
    hide Inv, Scanned, ScanNext, Expands, Order, StoredKey, Stored;
    if forall i :: 0 <= i < |calls| ==> !EmittedAt(h, calls[i], key) {
      OrderZero();
      var n := 0;
      while n < |calls| - 1
        invariant 0 <= n < |calls| && Order(calls[n].v) <= Order(Wide(h(key)))
      {
        PendingKey(h, calls[n], key);
        n := n + 1;
      }
      PendingKey(h, calls[n], key);
    }
  }

  lemma OrderZero()
    ensures Order(0) == 0
  {
    hide Rev, Val;
    OrderVal(0);
    RevZero();
    ValZero();
  }

  lemma PendingKey(h: Hash, c: Call, key: Key)
    requires Inv(h, c.s) && StoredKey(c.s, key) && Expands(c.s, c.v) && !EmittedAt(h, c, key)
    requires Order(c.v) <= Order(Wide(h(key)))
    ensures ScanNext(c.s, c.v) != 0 && Order(ScanNext(c.s, c.v)) <= Order(Wide(h(key)))
  {
    hide Inv, Scanned, ScanNext, Expands, Order, Stored;
    var e :| e in Stored(c.s) && e.key == key;
    ScanStep(h, c.s, c.v, e);
  }

  // The cursor only moves forward, so a scan ends however the dictionary changes.
  lemma ScanAdvances(s: DictState, v: bv64)
    ensures ScanNext(s, v) == 0 || Order(v) < Order(ScanNext(s, v))
  {
    hide Next, Order, Count;
    NextAdvances(v, Smaller(s).mask);
  }

  // Without the condition there is a hash value whose entries in the larger table a call leaves out,
  // although they are still to be visited, and which the returned cursor has passed.
  lemma ScanStepMisses(h: Hash, s: DictState, v: bv64) returns (x: bv64)
    requires Inv(h, s) && Rehashing(s) && !Expands(s, v)
    ensures Order(v) < Order(x) && And(x, Smaller(s).mask) == And(v, Smaller(s).mask)
    ensures ScanNext(s, v) == 0 || Order(x) < Order(ScanNext(s, v))
    ensures forall e :: e in Members(Larger(s)) && HashOf(h, e) == x ==> e !in Scanned(h, s, v)
  {
    hide Val, And, LowMask, BucketOk, Members, Order, Next, Expandable, Reached, HashOf, TableOk;
    MasksNest(h, s);
    x := ExpansionMisses(v, Smaller(s).mask, Larger(s).mask);
    SameNext(v, x, Smaller(s).mask);
    NextAdvances(x, Smaller(s).mask);
    forall e | e in Members(Larger(s)) && HashOf(h, e) == x ensures e !in Scanned(h, s, v) {
      assert e !in Members(Smaller(s));
    }
  }

  // A table of 16 buckets that a shrink to 4 buckets catches between the first and the second
  // call: the only entry, whose hash is 4, is never emitted.
  lemma ScanCanMiss(h: Hash, e: Entry) returns (calls: seq<Call>)
    requires Wide(h(e.key)) == 4
    ensures WholeScan(h, calls)
    ensures forall i :: 0 <= i < |calls| ==> StoredKey(calls[i].s, e.key) && !EmittedAt(h, calls[i], e.key)
  {
    hide Scanned, ScanNext, Inv, Members, Wide, Count, Rehashing;
    var before, during := BeforeShrink(h, e);
    calls := [Call(before, 0), Call(during, 8), Call(during, 2), Call(during, 1), Call(during, 3)];
    Misses(h, before, during, e);
    NextCalls(before, during);
    forall i | 0 <= i < |calls| ensures StoredKey(calls[i].s, e.key) && !EmittedAt(h, calls[i], e.key) {
      assert e in Stored(calls[i].s);
    }
  }

  lemma NextCalls(before: DictState, during: DictState)
    requires !Rehashing(before) && Rehashing(during) && during.t0 == before.t0 && before.t0.mask == 15
      && during.t1.mask == 3
    requires |before.t0.buckets| == 16 && |during.t1.buckets| == 4 && Count(before.t0.buckets) == 1
    ensures ScanNext(before, 0) == 8 && ScanNext(during, 8) == 2 && ScanNext(during, 2) == 1 && ScanNext(during, 1) == 3
    ensures ScanNext(during, 3) == 0
  {
    NextInTable();
    hide Next, Count;
  }

  lemma NextInTable()
    ensures Next(0, 15) == 8 && Next(8, 3) == 2 && Next(2, 3) == 1 && Next(1, 3) == 3 && Next(3, 3) == 0
  {}

  lemma Val15()
    ensures Val(15) == 15 && Val(3) == 3 && Val(4) == 4 && Val(8) == 8
  {
    assert Half(15) == 7 && Half(7) == 3 && Half(3) == 1 && Half(1) == 0 && Half(4) == 2 && Half(2) == 1
      && Half(8) == 4;
    assert Bit0(15) == 1 && Bit0(7) == 1 && Bit0(3) == 1 && Bit0(1) == 1 && Bit0(4) == 0 && Bit0(2) == 0
      && Bit0(8) == 0;
    LowZero(60); LowZero(61); LowZero(62);
    hide Half, Bit0;
    assert Low(1, 61) == 1 && Low(1, 62) == 1 && Low(1, 63) == 1;
    assert Low(2, 62) == 2 && Low(2, 63) == 2 && Low(3, 62) == 3 && Low(3, 64) == 3;
    assert Low(7, 63) == 7 && Low(4, 63) == 4 && Low(4, 64) == 4;
  }

  lemma BeforeShrink(h: Hash, e: Entry) returns (before: DictState, during: DictState)
    requires Wide(h(e.key)) == 4
    ensures Inv(h, before) && Inv(h, during)
    ensures !Rehashing(before) && Rehashing(during) && during.t0 == before.t0 && before.t0.mask == 15
      && during.t1.mask == 3
    ensures |before.t0.buckets| == 16 && |during.t1.buckets| == 4
    ensures Members(before.t0) == {e} && Members(before.t1) == {} && Members(during.t1) == {}
    ensures Count(before.t0.buckets) == 1 && before.t1 == NoTable
  {
    assert OneBit(16) && OneBit(4) && Pred(16) == 15 && Pred(4) == 3;
    Val15();
    hide Val, And, LowMask, OneBit, Pred, Push, Members;
    PredVal(16); PredVal(4);
    EmptyTableOk(h, 16); EmptyTableOk(h, 4);
    PushAdds(h, EmptyTable(16), e);
    NoTableEmpty();
    before := DictState(Push(h, EmptyTable(16), e), NoTable, -1);
    during := DictState(before.t0, EmptyTable(4), 0);
  }

  lemma Misses(h: Hash, before: DictState, during: DictState, e: Entry)
    requires Wide(h(e.key)) == 4
    requires !Rehashing(before) && Rehashing(during) && during.t0 == before.t0 && before.t0.mask == 15
      && during.t1.mask == 3
    requires |before.t0.buckets| == 16 && |during.t1.buckets| == 4
    requires Members(before.t0) == {e} && Members(before.t1) == {} && Members(during.t1) == {}
    ensures Scanned(h, before, 0) == {} && Scanned(h, during, 8) == {} && Scanned(h, during, 2) == {}
    ensures Scanned(h, during, 1) == {} && Scanned(h, during, 3) == {}
  {
    Val15();
    assert And(4, 15) == 4 && And(0, 15) == 0 && And(4, 3) == 0 && And(2, 3) == 2 && And(1, 3) == 1 && And(3, 3) == 3
      && And(8, 15) == 8;
    hide Val, And, Members;
  }
}
