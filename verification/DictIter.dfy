// Safe iterators of dict.c: dictNext as a transition, and what a whole iteration returns.
module DictIter {
  import opened DictModel
  import opened DictRehash
  import opened DictOps

  // dictIterator: the table and bucket it is at, and the chain from nextEntry on.
  datatype Iter = Iter(table: nat, index: int, pending: Chain)

  // dictGetIterator
  const Start := Iter(0, -1, [])

  function TableAt(s: DictState, table: nat): Table { if table == 0 then s.t0 else s.t1 }

  datatype Returned = Returned(it: Iter, e: Entry?)

  // The first entry of the first non-empty bucket from i on, continuing in the second table
  // during a rehash.
  function FirstFrom(s: DictState, table: nat, i: nat): Returned
    decreases if table == 0 then 1 else 0, |TableAt(s, table).buckets| - i
  {
    var bs := TableAt(s, table).buckets;
    if i >= |bs| then
      if Rehashing(s) && table == 0 then FirstFrom(s, 1, 0) else Returned(Iter(table, i, []), null)
    else if bs[i] == [] then FirstFrom(s, table, i + 1)
    else Returned(Iter(table, i, bs[i][1..]), bs[i][0])
  }

  // dictNext
  function Next(s: DictState, it: Iter): Returned
    requires it.index >= -1
  {
    if it.pending != [] then Returned(it.(pending := it.pending[1..]), it.pending[0])
    else FirstFrom(s, it.table, it.index + 1)
  }

  // ---- the iterator's position ----

  // What is pending is the end of the chain it is in; `last`, the entry returned last unless it was
  // deleted, comes right before.
  ghost predicate IterOk(s: DictState, it: Iter, last: Entry?) {
    && it.index >= -1 && it.table <= 1 && (it.table == 1 ==> Rehashing(s))
    && (it.pending != [] || last != null ==>
          && 0 <= it.index < |TableAt(s, it.table).buckets|
          && EndsWith(TableAt(s, it.table).buckets[it.index], it.pending, last))
  }

  ghost predicate EndsWith(c: Chain, pending: Chain, last: Entry?) {
    && |pending| <= |c| && c[|c| - |pending|..] == pending
    && (last != null ==> |pending| < |c| && c[|c| - |pending| - 1] == last)
  }

  // The entries of a table from bucket i on.
  ghost function From(t: Table, i: nat): set<Entry> {
    set b, j | i <= b < |t.buckets| && 0 <= j < |t.buckets[b]| :: t.buckets[b][j]
  }

  // The entries the iterator has still to return if nothing changes.
  ghost function Ahead(s: DictState, it: Iter): set<Entry>
    requires it.index >= -1
  {
    (set e | e in it.pending) + From(TableAt(s, it.table), it.index + 1) + (if it.table == 0 then Members(s.t1) else {})
  }

  lemma FromHere(t: Table, i: nat)
    ensures From(t, i) == if i < |t.buckets| then (set e | e in t.buckets[i]) + From(t, i + 1) else {}
    ensures From(t, 0) == Members(t)
  {
    if i < |t.buckets| {
      forall e | e in From(t, i) ensures e in (set e | e in t.buckets[i]) + From(t, i + 1) {
        var b, j :| i <= b < |t.buckets| && 0 <= j < |t.buckets[b]| && t.buckets[b][j] == e;
      }
      forall e | e in t.buckets[i] ensures e in From(t, i) {
        var j :| 0 <= j < |t.buckets[i]| && t.buckets[i][j] == e;
      }
    }
  }

  // Bucket i first, then the rest, with no entry in both.
  lemma FromApart(h: Hash, t: Table, i: nat)
    requires TableOk(h, t) && i < |t.buckets|
    ensures forall e :: e in t.buckets[i] ==> e !in From(t, i + 1)
  {
    hide Slot, Sized;
  }

  lemma {:induction false} ChainSize(c: Chain)
    requires Distinct(c)
    ensures |set e | e in c| == |c|
    decreases |c|
  {
    if c != [] {
      ChainSize(c[1..]);
      assert (set e | e in c) == {c[0]} + (set e | e in c[1..]);
      forall k | 0 <= k < |c[1..]| ensures c[1..][k] != c[0] { assert c[1..][k] == c[k + 1]; }
    }
  }

  lemma {:induction false} FromSize(h: Hash, t: Table, i: nat)
    requires TableOk(h, t) && i <= |t.buckets|
    ensures |From(t, i)| == Count(t.buckets[i..])
    decreases |t.buckets| - i
  {
    hide Slot, Sized, From;
    FromHere(t, i);
    if i < |t.buckets| {
      FromSize(h, t, i + 1);
      FromApart(h, t, i);
      assert BucketOk(h, t.mask, i, t.buckets[i]);
      ChainSize(t.buckets[i]);
      assert t.buckets[i..][1..] == t.buckets[i + 1..];
    }
  }

  // The two `used` counters add up to the number of entries.
  lemma SizeCounts(h: Hash, s: DictState)
    requires Inv(h, s)
    ensures |Stored(s)| == Count(s.t0.buckets) + Count(s.t1.buckets)
  {
    hide Slot, Sized, BucketOk, Members, From;
    NoTableOk(h);
    FromHere(s.t0, 0); FromHere(s.t1, 0);
    FromSize(h, s.t0, 0); FromSize(h, s.t1, 0);
    assert s.t0.buckets[0..] == s.t0.buckets && s.t1.buckets[0..] == s.t1.buckets;
    NoTableEmpty();
    assert Members(s.t0) !! Members(s.t1);
  }

  lemma TakeHead(h: Hash, s: DictState, table: nat, i: nat, p: Chain)
    requires Inv(h, s) && table <= 1 && (table == 1 ==> Rehashing(s)) && i < |TableAt(s, table).buckets|
    requires p != [] && EndsWith(TableAt(s, table).buckets[i], p, null)
    ensures p[0] in Ahead(s, Iter(table, i, p))
    ensures Ahead(s, Iter(table, i, p[1..])) == Ahead(s, Iter(table, i, p)) - {p[0]}
    ensures IterOk(s, Iter(table, i, p[1..]), p[0])
  {
    hide Slot, Sized, Members, From;
    var t := TableAt(s, table);
    var c := t.buckets[i];
    var k := |c| - |p|;
    assert c[k..][0] == p[0] && c[k..][1..] == c[k + 1..];
    assert p[0] in c;
    FromApart(h, t, i);
    FromHere(t, i); FromHere(t, 0);
    FromWithin(t, i);
    assert BucketOk(h, t.mask, i, c);
    forall j | 1 <= j < |p| ensures p[j] != p[0] {
      assert p[j] == c[k + j] && p[0] == c[k];
    }
    if table == 0 && Rehashing(s) { assert p[0] !in Members(s.t1); }
    NoTableEmpty();
  }

  lemma FromWithin(t: Table, i: nat)
    ensures From(t, i) <= Members(t)
  {}

  lemma {:induction false} FirstFromTakes(h: Hash, s: DictState, table: nat, i: nat)
    requires Inv(h, s) && table <= 1 && (table == 1 ==> Rehashing(s))
    ensures var r := FirstFrom(s, table, i);
      var ahead := From(TableAt(s, table), i) + (if table == 0 then Members(s.t1) else {});
      && IterOk(s, r.it, r.e)
      && (if r.e == null then ahead == {} && Ahead(s, r.it) == {}
          else r.e in ahead && Ahead(s, r.it) == ahead - {r.e})
    decreases if table == 0 then 1 else 0, |TableAt(s, table).buckets| - i
  {
    hide Slot, Sized, Members, BucketOk, From;
    var t := TableAt(s, table);
    FromHere(t, i);
    NoTableEmpty();
    if i >= |t.buckets| {
      if Rehashing(s) && table == 0 {
        FirstFromTakes(h, s, 1, 0);
        FromHere(s.t1, 0);
      } else {
        FromHere(t, i + 1);
      }
    } else if t.buckets[i] == [] {
      FirstFromTakes(h, s, table, i + 1);
    } else {
      TakeHead(h, s, table, i, t.buckets[i]);
    }
  }

  // dictNext returns an entry that was ahead, and takes just that one off; it returns none only at the end.
  lemma NextTakes(h: Hash, s: DictState, it: Iter, last: Entry?)
    requires Inv(h, s) && IterOk(s, it, last)
    ensures var r := Next(s, it);
      && IterOk(s, r.it, r.e)
      && (if r.e == null then Ahead(s, it) == {} && Ahead(s, r.it) == {}
          else r.e in Ahead(s, it) && Ahead(s, r.it) == Ahead(s, it) - {r.e})
  {
    hide Inv, Members, From, FirstFrom;
    if it.pending != [] {
      TakeHead(h, s, it.table, it.index, it.pending);
    } else {
      FirstFromTakes(h, s, it.table, it.index + 1);
    }
  }

  lemma StartAhead(s: DictState)
    ensures Ahead(s, Start) == Stored(s) && IterOk(s, Start, null)
  {
    FromHere(s.t0, 0);
  }

  // ---- what the caller may do meanwhile ----

  // dictAdd with a safe iterator registered: possibly start a rehash, then link the new entry,
  // unless the key is there.
  function Added(h: Hash, s: DictState, canResize: bool, e: Entry): DictState
    requires Inv(h, s) && Count(s.t0.buckets) * 2 < LONG_MAX
  {
    ExpandIfNeededKeeps(h, s, canResize);
    var s' := ExpandIfNeeded(s, canResize).s;
    SizedTables(h, s');
    if Search(h, s', e.key) != null then s' else Insert(h, s', e)
  }

  // Growing keeps the first table, unless it was NULL, and starts with an empty second one.
  lemma ExpandShape(h: Hash, s: DictState, canResize: bool)
    requires Inv(h, s) && Count(s.t0.buckets) * 2 < LONG_MAX
    ensures var s' := ExpandIfNeeded(s, canResize).s;
      s' == s
      || (!Rehashing(s) && (s.t0.buckets == [] || s'.t0 == s.t0) && Members(s'.t1) == {}
        && (s.t0.buckets == [] ==> Members(s'.t0) == {}))
  {
    hide Members, RealSize, EmptyTable, Words.Val, Words.OneBit;
    NoTableEmpty();
    if !Rehashing(s) {
      RealSizeIs(4); EmptyTableOk(h, RealSize(4));
      RealSizeIs(Count(s.t0.buckets) * 2); EmptyTableOk(h, RealSize(Count(s.t0.buckets) * 2));
    }
  }

  lemma ExpandPending(h: Hash, s: DictState, canResize: bool, it: Iter, last: Entry?)
    requires Inv(h, s) && IterOk(s, it, last) && Count(s.t0.buckets) * 2 < LONG_MAX
    ensures var s' := ExpandIfNeeded(s, canResize).s;
      && IterOk(s', it, last) && Inv(h, s') && Stored(s') == Stored(s) && Ahead(s', it) == Ahead(s, it)
  {
    hide Inv, From, Members, ExpandIfNeeded;
    ExpandIfNeededKeeps(h, s, canResize);
    ExpandShape(h, s, canResize);
    var s' := ExpandIfNeeded(s, canResize).s;
    if s' != s {
      IdleTable(h, s);
      if s.t0.buckets == [] {
        FromWithin(s.t0, it.index + 1); FromWithin(s'.t0, it.index + 1);
        FromHere(s.t0, 0);
      }
    }
  }

  lemma IdleTable(h: Hash, s: DictState)
    requires Inv(h, s) && !Rehashing(s)
    ensures Members(s.t1) == {} && (s.t0.buckets == [] ==> Members(s.t0) == {})
  {}

  lemma PushFrom(h: Hash, t: Table, e: Entry, i: nat)
    requires Sized(t) && |t.buckets| > 0
    ensures From(t, i) <= From(Push(h, t, e), i) <= From(t, i) + {e}
  {
    hide Sized, Slot;
    var t' := Push(h, t, e);
    forall f | f in From(t, i) ensures f in From(t', i) {
      var b, j :| i <= b < |t.buckets| && 0 <= j < |t.buckets[b]| && t.buckets[b][j] == f;
      assert t'.buckets[b] == t.buckets[b] || t'.buckets[b] == [e] + t.buckets[b];
      assert t'.buckets[b][j] == f || t'.buckets[b][j + 1] == f;
    }
    forall f | f in From(t', i) ensures f in From(t, i) + {e} {
      var b, j :| i <= b < |t'.buckets| && 0 <= j < |t'.buckets[b]| && t'.buckets[b][j] == f;
      assert t'.buckets[b] == t.buckets[b] || t'.buckets[b] == [e] + t.buckets[b];
      assert f == e || f in t.buckets[b];
    }
  }

  lemma PushEnds(h: Hash, t: Table, e: Entry, b: nat, pending: Chain, last: Entry?)
    requires Sized(t) && b < |t.buckets| && EndsWith(t.buckets[b], pending, last)
    ensures EndsWith(Push(h, t, e).buckets[b], pending, last)
  {
    hide Sized, Slot;
    var c, c' := t.buckets[b], Push(h, t, e).buckets[b];
    assert c' == c || c' == [e] + c;
    if c' == [e] + c {
      assert c'[|c'| - |pending|..] == c[|c| - |pending|..];
      if last != null { assert c'[|c'| - |pending| - 1] == c[|c| - |pending| - 1]; }
    }
  }

  // Linking an entry at the head of a chain leaves what is pending in place.
  lemma InsertPending(h: Hash, s: DictState, it: Iter, last: Entry?, e: Entry)
    requires Inv(h, s) && IterOk(s, it, last) && |s.t0.buckets| > 0 && !StoredKey(s, e.key)
    ensures var s' := Insert(h, s, e);
      && Inv(h, s') && Stored(s') == Stored(s) + {e} && IterOk(s', it, last)
      && Ahead(s, it) <= Ahead(s', it) <= Ahead(s, it) + {e}
  {
    hide Inv, From, Members, StoredKey, Push, EndsWith;
    InsertAdds(h, s, e);
    SizedTables(h, s);
    if Rehashing(s) {
      PushFrom(h, s.t1, e, it.index + 1); PushFrom(h, s.t1, e, 0); FromHere(s.t1, 0); FromHere(Push(h, s.t1, e), 0);
    } else {
      PushFrom(h, s.t0, e, it.index + 1);
    }
    if it.pending != [] || last != null {
      var t := TableAt(s, it.table);
      PushEnds(h, t, e, it.index, it.pending, last);
    }
  }

  lemma LocateUnique(c: Chain, k: nat)
    requires Distinct(c) && k < |c|
    ensures Locate(c, c[k].key) == k
  {
  }

  lemma RemoveAt(h: Hash, s: DictState, it: Iter, last: Entry)
    requires Inv(h, s) && IterOk(s, it, last) && Sized(s.t0) && Sized(s.t1) && Search(h, s, last.key) == last
    ensures var t := TableAt(s, it.table); var i := |t.buckets[it.index]| - |it.pending| - 1;
      Remove(h, s, last.key) ==
        if it.table == 0 then s.(t0 := Unlink(t, it.index, i)) else s.(t1 := Unlink(t, it.index, i))
  {
    hide Slot, Sized, Unlink;
    var t := TableAt(s, it.table);
    var c := t.buckets[it.index];
    var i := |c| - |it.pending| - 1;
    NoTableOk(h);
    assert c[i] == last && last in Members(t);
    assert BucketOk(h, t.mask, it.index, c);
    LocateUnique(c, i);
    LookupFinds(h, s.t0, last.key);
    if it.table == 1 {
      assert !HasKey(s.t0, last.key);
    } else {
      assert HasKey(s.t0, last.key);
    }
  }

  lemma UnlinkEnds(t: Table, b: nat, pending: Chain, last: Entry)
    requires b < |t.buckets| && EndsWith(t.buckets[b], pending, last)
    ensures var t' := Unlink(t, b, |t.buckets[b]| - |pending| - 1);
      EndsWith(t'.buckets[b], pending, null) && From(t', b + 1) == From(t, b + 1)
  {
    var c := t.buckets[b];
    var i := |c| - |pending| - 1;
    var t' := Unlink(t, b, i);
    var w := Without(c, i);
    assert w[|w| - |pending|..] == c[i + 1..];
    var n := b + 1;
    forall e | e in From(t, n) ensures e in From(t', n) {
      var d, j :| n <= d < |t.buckets| && 0 <= j < |t.buckets[d]| && t.buckets[d][j] == e;
      assert t'.buckets[d][j] == e;
    }
  }

  // Unlinking the entry returned last leaves what is ahead in place.
  lemma RemovePending(h: Hash, s: DictState, it: Iter, last: Entry)
    requires Inv(h, s) && IterOk(s, it, last)
    ensures last in Stored(s) && Sized(s.t0) && Sized(s.t1) && Search(h, s, last.key) == last
    ensures var s' := Remove(h, s, last.key);
      Inv(h, s') && Stored(s') == Stored(s) - {last} && IterOk(s', it, null) && Ahead(s', it) == Ahead(s, it)
  {
    hide Inv, Members, Search, Remove, From, EndsWith, Unlink;
    SizedTables(h, s);
    var t := TableAt(s, it.table);
    LastStored(h, s, it, last);
    SearchFinds(h, s, last.key);
    UniqueEntry(h, s, Search(h, s, last.key), last);
    RemoveRemoves(h, s, last.key);
    RemoveAt(h, s, it, last);
    UnlinkEnds(t, it.index, it.pending, last);
    UnlinkSize(t, it.index, |t.buckets[it.index]| - |it.pending| - 1);
  }

  lemma LastStored(h: Hash, s: DictState, it: Iter, last: Entry)
    requires Inv(h, s) && IterOk(s, it, last)
    ensures last in Members(TableAt(s, it.table)) && |it.pending| < |TableAt(s, it.table).buckets[it.index]|
  {
    var c := TableAt(s, it.table).buckets[it.index];
    assert c[|c| - |it.pending| - 1] == last;
  }

  lemma UnlinkSize(t: Table, b: nat, i: nat)
    requires b < |t.buckets| && i < |t.buckets[b]|
    ensures |Unlink(t, b, i).buckets| == |t.buckets|
  {}

  lemma AddedPending(h: Hash, s: DictState, canResize: bool, e: Entry, it: Iter, last: Entry?)
    requires Inv(h, s) && IterOk(s, it, last) && Count(s.t0.buckets) * 2 < LONG_MAX
    ensures var s' := Added(h, s, canResize, e);
      && Inv(h, s') && IterOk(s', it, last)
      && Stored(s') == (if StoredKey(s, e.key) then Stored(s) else Stored(s) + {e})
      && Ahead(s, it) <= Ahead(s', it) <= Ahead(s, it) + {e}
  {
    hide Inv, Stored, IterOk, Ahead, Insert, Search, ExpandIfNeeded;
    ExpandIfNeededKeeps(h, s, canResize);
    ExpandPending(h, s, canResize, it, last);
    var s' := ExpandIfNeeded(s, canResize).s;
    SizedTables(h, s');
    SearchFinds(h, s', e.key);
    if Search(h, s', e.key) == null {
      InsertPending(h, s', it, last, e);
    }
  }

  // ---- whole iterations ----

  // The dictionary with one registered safe iterator, and the entry it returned last.
  datatype World = World(s: DictState, it: Iter, last: Entry?)

  // With an iterator registered no rehash step is made, so a find changes nothing.
  datatype Event = Step | Find(key: Key) | Add(e: Entry, canResize: bool) | DeleteLast

  ghost predicate WorldOk(h: Hash, w: World) { Inv(h, w.s) && IterOk(w.s, w.it, w.last) }

  ghost predicate Allowed(w: World, ev: Event) {
    match ev
    case Add(_, _) => Count(w.s.t0.buckets) * 2 < LONG_MAX
    case DeleteLast => w.last != null
    case _ => true
  }

  function After(h: Hash, w: World, ev: Event): World
    requires WorldOk(h, w) && Allowed(w, ev)
  {
    match ev
    case Step => var r := Next(w.s, w.it); World(w.s, r.it, r.e)
    case Find(_) => w
    case Add(e, canResize) => w.(s := Added(h, w.s, canResize, e))
    case DeleteLast =>
      RemovePending(h, w.s, w.it, w.last);
      World(Remove(h, w.s, w.last.key), w.it, null)
  }

  function Output(w: World, ev: Event): seq<Entry>
    requires w.it.index >= -1
  {
    if ev.Step? && Next(w.s, w.it).e != null then [Next(w.s, w.it).e] else []
  }

  lemma AfterOk(h: Hash, w: World, ev: Event)
    requires WorldOk(h, w) && Allowed(w, ev)
    ensures var w' := After(h, w, ev);
      && WorldOk(h, w')
      && (forall e :: (ev.Add? ==> ev.e != e) ==>
            (if e in Ahead(w.s, w.it) then 1 else 0) ==
              multiset(Output(w, ev))[e] + (if e in Ahead(w'.s, w'.it) then 1 else 0))
  {
    hide Inv, IterOk, Ahead, Added, Next, Remove;
    IndexOk(w);
    match ev
    case Step => NextTakes(h, w.s, w.it, w.last);
    case Find(_) =>
    case Add(e, canResize) => AddedPending(h, w.s, canResize, e, w.it, w.last);
    case DeleteLast => RemovePending(h, w.s, w.it, w.last);
  }

  lemma IndexOk(w: World)
    ensures IterOk(w.s, w.it, w.last) ==> w.it.index >= -1
  {}

  ghost predicate Runs(h: Hash, w: World, evs: seq<Event>)
    requires WorldOk(h, w)
    decreases |evs|
  {
    evs == [] || (Allowed(w, evs[0]) && (AfterOk(h, w, evs[0]); Runs(h, After(h, w, evs[0]), evs[1..])))
  }

  ghost function Final(h: Hash, w: World, evs: seq<Event>): World
    requires WorldOk(h, w) && Runs(h, w, evs)
    decreases |evs|
  {
    if evs == [] then w else AfterOk(h, w, evs[0]); Final(h, After(h, w, evs[0]), evs[1..])
  }

  ghost function Outputs(h: Hash, w: World, evs: seq<Event>): seq<Entry>
    requires WorldOk(h, w) && Runs(h, w, evs)
    decreases |evs|
  {
    if evs == [] then [] else AfterOk(h, w, evs[0]); Output(w, evs[0]) + Outputs(h, After(h, w, evs[0]), evs[1..])
  }

  // Whatever the caller does in between, an entry it did not add itself is returned exactly when it
  // stops being ahead.
  lemma {:induction false} IterationTakes(h: Hash, w: World, evs: seq<Event>, e: Entry)
    requires WorldOk(h, w) && Runs(h, w, evs)
    requires forall ev :: ev in evs && ev.Add? ==> ev.e != e
    ensures WorldOk(h, Final(h, w, evs))
    ensures var w' := Final(h, w, evs);
      (if e in Ahead(w.s, w.it) then 1 else 0) ==
      multiset(Outputs(h, w, evs))[e] + (if e in Ahead(w'.s, w'.it) then 1 else 0)
    decreases |evs|
  {
    hide WorldOk, Ahead, After, Output;
    if evs != [] {
      AfterOk(h, w, evs[0]);
      IterationTakes(h, After(h, w, evs[0]), evs[1..], e);
    }
  }

  // Every entry present when the iteration starts is returned exactly once, even if an insertion
  // starts a rehash in the middle.
  lemma IterationOnce(h: Hash, s: DictState, evs: seq<Event>, e: Entry)
    requires Inv(h, s) && e in Stored(s)
    requires WorldOk(h, World(s, Start, null)) && Runs(h, World(s, Start, null), evs + [Step])
    requires forall ev :: ev in evs && ev.Add? ==> ev.e != e
    requires Final(h, World(s, Start, null), evs + [Step]).last == null
    ensures multiset(Outputs(h, World(s, Start, null), evs + [Step]))[e] == 1
  {
    hide Inv, Stored, Runs, Outputs;
    var w := World(s, Start, null);
    StartAhead(s);
    IterationTakes(h, w, evs + [Step], e);
    FinalStep(h, w, evs);
  }

  // The last step returned nothing, so nothing is ahead.
  lemma {:induction false} FinalStep(h: Hash, w: World, evs: seq<Event>)
    requires WorldOk(h, w) && Runs(h, w, evs + [Step])
    ensures var w' := Final(h, w, evs + [Step]); w'.it.index >= -1 && (w'.last == null ==> Ahead(w'.s, w'.it) == {})
    decreases |evs|
  {
    hide WorldOk, Ahead, After;
    var all := evs + [Step];
    AfterOk(h, w, all[0]);
    if evs == [] {
      assert all[1..] == [];
      StepEnds(h, w);
    } else {
      assert all[1..] == evs[1..] + [Step];
      FinalStep(h, After(h, w, evs[0]), evs[1..]);
    }
  }

  lemma StepEnds(h: Hash, w: World)
    requires WorldOk(h, w)
    ensures var w' := After(h, w, Step); w'.it.index >= -1 && (w'.last == null ==> Ahead(w'.s, w'.it) == {})
  {
    hide Inv, Ahead, Next;
    NextTakes(h, w.s, w.it, w.last);
  }

  // While an iterator is registered no bucket moves: a lookup changes nothing, dictGenericDelete
  // at most unlinks the entry, and dictAddRaw links one after growing the table if needed.
  lemma RegisteredUpdates(h: Hash, s: DictState, iterators: nat, canResize: bool, e: Entry, key: Key)
    requires Inv(h, s) && CountFits(s) && iterators > 0
    ensures DictOps.Step(h, s, iterators) == s && Ready(h, s, iterators, canResize) == ExpandIfNeeded(s, canResize).s
    ensures Added(h, s, canResize, e) ==
      if StoredKey(s, e.key) then Ready(h, s, iterators, canResize) else Insert(h, Ready(h, s, iterators, canResize), e)
    ensures Sized(s.t0) && Sized(s.t1) && (StoredKey(s, key) <==> Search(h, s, key) != null)
    ensures Erased(h, s, iterators, key) == if StoredKey(s, key) then Remove(h, s, key) else s
  {
    hide Inv, Search, ExpandIfNeeded, Insert, Remove;
    ReadyIs(h, s, iterators, canResize);
    ExpandIfNeededKeeps(h, s, canResize);
    SizedTables(h, ExpandIfNeeded(s, canResize).s);
    SearchFinds(h, ExpandIfNeeded(s, canResize).s, e.key);
    SizedTables(h, s);
    SearchFinds(h, s, key);
    if |s.t0.buckets| == 0 { NothingStored(h, s); }
  }

  lemma NothingStored(h: Hash, s: DictState)
    requires Inv(h, s) && |s.t0.buckets| == 0
    ensures Stored(s) == {}
  {}
}
