// Incremental rehashing of dict.c as transitions of the two-table state.
module DictRehash {
  import opened Words
  import opened DictModel

  // dict: ht[0], ht[1] and rehashidx.
  datatype DictState = DictState(t0: Table, t1: Table, rehashidx: int)

  predicate Rehashing(s: DictState) { s.rehashidx != -1 }

  // The table that grows: the second one while a rehash is on.
  function Filled(s: DictState): Table { if Rehashing(s) then s.t1 else s.t0 }

  // All the entries of a dictionary.
  ghost function Stored(s: DictState): set<Entry> { Members(s.t0) + Members(s.t1) }

  ghost predicate Disjoint(s: DictState) {
    forall e, f :: e in Members(s.t0) && f in Members(s.t1) ==> e.key != f.key
  }

  // Between two moves of a rehash. The index may already be one past the last bucket.
  ghost predicate Moving(h: Hash, s: DictState) {
    && TableOk(h, s.t0) && TableOk(h, s.t1) && |s.t1.buckets| > 0
    && 0 <= s.rehashidx <= |s.t0.buckets|
    && (forall b :: 0 <= b < s.rehashidx ==> s.t0.buckets[b] == [])
    && Disjoint(s)
  }

  // Whenever no operation is running.
  ghost predicate Inv(h: Hash, s: DictState) {
    if Rehashing(s) then
      Moving(h, s) && s.rehashidx < |s.t0.buckets| && |s.t0.buckets| != |s.t1.buckets|
    else
      TableOk(h, s.t0) && s.t1 == NoTable
  }

  // ---- moving one bucket ----

  function MoveChain(h: Hash, c: Chain, t: Table): (t': Table)
    requires Sized(t) && |t.buckets| > 0
    ensures Sized(t') && |t'.buckets| == |t.buckets| && t'.mask == t.mask
    decreases |c|
  {
    if c == [] then t else MoveChain(h, c[1..], Push(h, t, c[0]))
  }

  lemma {:induction false} MoveChainAdds(h: Hash, c: Chain, t: Table)
    requires TableOk(h, t) && |t.buckets| > 0 && Distinct(c)
    requires forall e :: e in c ==> !HasKey(t, e.key)
    ensures TableOk(h, MoveChain(h, c, t))
    ensures Members(MoveChain(h, c, t)) == Members(t) + set e | e in c
    ensures Count(MoveChain(h, c, t).buckets) == Count(t.buckets) + |c|
    decreases |c|
  {
    hide Slot, Sized, Push, Members;
    if c != [] {
      PushAdds(h, t, c[0]);
      var t' := Push(h, t, c[0]);
      forall e | e in c[1..] ensures !HasKey(t', e.key) {
        var i :| 1 <= i < |c| && c[i] == e;
        assert e in c && c[0].key != c[i].key;
      }
      MoveChainAdds(h, c[1..], t');
      assert (set e | e in c) == {c[0]} + (set e | e in c[1..]);
    }
  }

  function MoveBucket(h: Hash, s: DictState): DictState
    requires Sized(s.t1) && |s.t1.buckets| > 0 && 0 <= s.rehashidx < |s.t0.buckets|
  {
    DictState(s.t0.(buckets := s.t0.buckets[s.rehashidx := []]),
              MoveChain(h, s.t0.buckets[s.rehashidx], s.t1),
              s.rehashidx + 1)
  }

  lemma MoveBucketKeeps(h: Hash, s: DictState)
    requires Moving(h, s) && s.rehashidx < |s.t0.buckets|
    ensures Moving(h, MoveBucket(h, s))
    ensures Stored(MoveBucket(h, s)) == Stored(s)
    ensures Count(MoveBucket(h, s).t0.buckets) == Count(s.t0.buckets) - |s.t0.buckets[s.rehashidx]|
    ensures Count(MoveBucket(h, s).t1.buckets) == Count(s.t1.buckets) + |s.t0.buckets[s.rehashidx]|
  {
    hide Slot, Val, LowMask, MoveChain, Members;
    var c := s.t0.buckets[s.rehashidx];
    var s' := MoveBucket(h, s);
    CountUpdate(s.t0.buckets, s.rehashidx, []);
    EmptiedBucket(h, s.t0, s.rehashidx);
    MoveChainAdds(h, c, s.t1);
  }

  lemma EmptiedBucket(h: Hash, t: Table, b: nat)
    requires TableOk(h, t) && b < |t.buckets|
    ensures var t' := t.(buckets := t.buckets[b := []]);
      && TableOk(h, t')
      && Members(t) == Members(t') + (set e | e in t.buckets[b])
      && (forall e, f :: e in Members(t') && f in t.buckets[b] ==> e.key != f.key)
  {
    hide Slot, Val, LowMask;
    var t' := t.(buckets := t.buckets[b := []]);
    forall f | f in Members(t) ensures f in Members(t') + (set e | e in t.buckets[b]) {
      var d, i :| 0 <= d < |t.buckets| && 0 <= i < |t.buckets[d]| && t.buckets[d][i] == f;
      if d != b { assert t'.buckets[d][i] == f; }
    }
    forall e, f | e in Members(t') && f in t.buckets[b] ensures e.key != f.key {
      var d, i :| 0 <= d < |t'.buckets| && 0 <= i < |t'.buckets[d]| && t'.buckets[d][i] == e;
      assert Slot(h, e.key, t.mask) == d && Slot(h, f.key, t.mask) == b;
    }
  }

  // ---- dictRehash ----

  // Skip empty buckets from i on, at most `visits` of them.
  function Skip(buckets: seq<Chain>, i: nat, visits: nat): (r: (nat, nat))
    requires visits > 0 && i <= |buckets|
    ensures i <= r.0 <= |buckets| && r.1 <= visits && r.0 - i == visits - r.1
    ensures forall b :: i <= b < r.0 ==> buckets[b] == []
    ensures r.1 > 0 ==> r.0 == |buckets| || buckets[r.0] != []
    decreases |buckets| - i
  {
    if i == |buckets| || buckets[i] != [] then (i, visits)
    else if visits == 1 then (i + 1, 0)
    else Skip(buckets, i + 1, visits - 1)
  }

  lemma {:induction false} EmptyCount(buckets: seq<Chain>)
    ensures Count(buckets) == 0 <==> forall b :: 0 <= b < |buckets| ==> buckets[b] == []
    decreases |buckets|
  {
    if buckets != [] {
      EmptyCount(buckets[1..]);
      assert forall b :: 0 < b < |buckets| ==> buckets[b] == buckets[1..][b - 1];
      if forall b :: 0 <= b < |buckets| ==> buckets[b] == [] {
        assert forall b :: 0 <= b < |buckets[1..]| ==> buckets[1..][b] == buckets[b + 1];
      }
    }
  }

  // Where the loop of dictRehash stopped: what is left of n and of the empty visits, and
  // whether it returned from within because the visits ran out.
  datatype Progress = Progress(s: DictState, n: nat, visits: nat, early: bool)

  lemma SkipStaysInside(h: Hash, s: DictState, visits: nat)
    requires Moving(h, s) && Count(s.t0.buckets) != 0 && visits > 0
    ensures s.rehashidx < |s.t0.buckets|
    ensures var r := Skip(s.t0.buckets, s.rehashidx, visits);
      r.0 < |s.t0.buckets| && Moving(h, s.(rehashidx := r.0))
  {
    hide Slot, Sized, Members, BucketOk, TableOk;
    EmptyCount(s.t0.buckets);
    var r := Skip(s.t0.buckets, s.rehashidx, visits);
    assert Disjoint(s) ==> Disjoint(s.(rehashidx := r.0));
  }

  function RehashLoop(h: Hash, s: DictState, n: nat, visits: nat): Progress
    requires Moving(h, s) && (n > 0 ==> visits > 0)
    decreases n
  {
    if n == 0 || Count(s.t0.buckets) == 0 then Progress(s, n, visits, false)
    else
      SkipStaysInside(h, s, visits);
      var (i, v) := Skip(s.t0.buckets, s.rehashidx, visits);
      var s' := s.(rehashidx := i);
      if v == 0 then Progress(s', n - 1, 0, true)
      else
        MoveBucketKeeps(h, s');
        RehashLoop(h, MoveBucket(h, s'), n - 1, v)
  }

  // The rest of dictRehash: drop the first table once it is empty.
  function Finish(s: DictState): DictState {
    if Count(s.t0.buckets) == 0 then DictState(s.t1, NoTable, -1) else s
  }

  function Rehash(h: Hash, s: DictState, n: nat): DictState
    requires Inv(h, s)
  {
    if !Rehashing(s) then s else
      var p := RehashLoop(h, s, n, 10 * n);
      if p.early then p.s else Finish(p.s)
  }

  // Any number of steps keeps the entries, the tables' form and the total count, and never runs
  // past the first table.
  lemma {:induction false} RehashLoopKeeps(h: Hash, s: DictState, n: nat, visits: nat)
    requires Moving(h, s) && (n > 0 ==> visits > 0)
    ensures var p := RehashLoop(h, s, n, visits);
      && Moving(h, p.s)
      && s.rehashidx <= p.s.rehashidx
      && |p.s.t0.buckets| == |s.t0.buckets| && |p.s.t1.buckets| == |s.t1.buckets|
      && Stored(p.s) == Stored(s)
      && Count(p.s.t0.buckets) + Count(p.s.t1.buckets) == Count(s.t0.buckets) + Count(s.t1.buckets)
      && (p.early ==> Count(p.s.t0.buckets) != 0)
      && (!p.early && Count(p.s.t0.buckets) != 0 ==> p.n == 0)
      && (n > 0 && Count(s.t0.buckets) != 0 ==> s.rehashidx < p.s.rehashidx)
    decreases n
  {
    hide BucketOk, Members, Slot, Val, LowMask, Disjoint, MoveBucket;
    if n != 0 && Count(s.t0.buckets) != 0 {
      SkipStaysInside(h, s, visits);
      var (i, v) := Skip(s.t0.buckets, s.rehashidx, visits);
      var s' := s.(rehashidx := i);
      if v != 0 {
        MoveBucketKeeps(h, s');
        MoveBucketSizes(h, s');
        RehashLoopKeeps(h, MoveBucket(h, s'), n - 1, v);
      }
    }
  }

  lemma MoveBucketSizes(h: Hash, s: DictState)
    requires Sized(s.t1) && |s.t1.buckets| > 0 && 0 <= s.rehashidx < |s.t0.buckets|
    ensures |MoveBucket(h, s).t0.buckets| == |s.t0.buckets| && |MoveBucket(h, s).t1.buckets| == |s.t1.buckets|
    ensures MoveBucket(h, s).rehashidx == s.rehashidx + 1
    ensures forall b :: s.rehashidx < b < |s.t0.buckets| ==> MoveBucket(h, s).t0.buckets[b] == s.t0.buckets[b]
  {}

  // Number of non-empty buckets from lo up to hi.
  function NonEmpty(buckets: seq<Chain>, lo: nat, hi: nat): nat
    requires hi <= |buckets|
    decreases hi - lo
  {
    if lo >= hi then 0 else (if buckets[lo] == [] then 0 else 1) + NonEmpty(buckets, lo + 1, hi)
  }

  lemma {:induction false} NonEmptyOfEmpty(buckets: seq<Chain>, lo: nat, mid: nat, hi: nat)
    requires lo <= mid <= hi <= |buckets|
    requires forall b :: lo <= b < mid ==> buckets[b] == []
    ensures NonEmpty(buckets, lo, hi) == NonEmpty(buckets, mid, hi)
    decreases mid - lo
  {
    if lo < mid { NonEmptyOfEmpty(buckets, lo + 1, mid, hi); }
  }

  lemma {:induction false} NonEmptySame(a: seq<Chain>, b: seq<Chain>, lo: nat, hi: nat)
    requires |a| == |b| && hi <= |a| && forall i :: lo <= i < hi ==> a[i] == b[i]
    ensures NonEmpty(a, lo, hi) == NonEmpty(b, lo, hi)
    decreases hi - lo
  {
    if lo < hi { NonEmptySame(a, b, lo + 1, hi); }
  }

  // One call moves exactly the buckets taken from n, and visits exactly the empty ones taken from
  // the visits.
  lemma {:induction false} RehashLoopWork(h: Hash, s: DictState, n: nat, visits: nat)
    requires Moving(h, s) && (n > 0 ==> visits > 0)
    ensures var p := RehashLoop(h, s, n, visits);
      && s.rehashidx <= p.s.rehashidx <= |s.t0.buckets| && p.n <= n && p.visits <= visits
      && NonEmpty(s.t0.buckets, s.rehashidx, p.s.rehashidx) + p.n + (if p.early then 1 else 0) == n
      && (p.s.rehashidx - s.rehashidx) - NonEmpty(s.t0.buckets, s.rehashidx, p.s.rehashidx) == visits - p.visits
    decreases n
  {
    hide BucketOk, Members, Slot, Val, LowMask, Disjoint, MoveBucket;
    if n != 0 && Count(s.t0.buckets) != 0 {
      SkipStaysInside(h, s, visits);
      var (i, v) := Skip(s.t0.buckets, s.rehashidx, visits);
      var s' := s.(rehashidx := i);
      if v == 0 {
        NonEmptyOfEmpty(s.t0.buckets, s.rehashidx, i, i);
      } else {
        MoveBucketKeeps(h, s');
        MoveBucketSizes(h, s');
        var m := MoveBucket(h, s');
        var p := RehashLoop(h, m, n - 1, v);
        RehashLoopWork(h, m, n - 1, v);
        NonEmptyOfEmpty(s.t0.buckets, s.rehashidx, i, p.s.rehashidx);
        NonEmptySame(s.t0.buckets, m.t0.buckets, i + 1, p.s.rehashidx);
      }
    }
  }

  // ---- whole calls ----

  lemma RehashKeeps(h: Hash, s: DictState, n: nat)
    requires Inv(h, s)
    ensures Inv(h, Rehash(h, s, n))
    ensures Stored(Rehash(h, s, n)) == Stored(s)
    ensures Count(Rehash(h, s, n).t0.buckets) + Count(Rehash(h, s, n).t1.buckets) ==
      Count(s.t0.buckets) + Count(s.t1.buckets)
    ensures |Rehash(h, s, n).t0.buckets| in {|s.t0.buckets|, |s.t1.buckets|}
    ensures |Rehash(h, s, n).t1.buckets| in {0, |s.t1.buckets|}
    ensures |Filled(Rehash(h, s, n)).buckets| == |Filled(s).buckets|
    ensures n > 0 && Rehashing(Rehash(h, s, n)) ==> s.rehashidx < Rehash(h, s, n).rehashidx < |s.t0.buckets|
  {
    if Rehashing(s) {
      RehashLoopKeeps(h, s, n, 10 * n);
      var p := RehashLoop(h, s, n, 10 * n);
      EmptyCount(p.s.t0.buckets);
      if Count(p.s.t0.buckets) == 0 {
        assert Members(p.s.t0) == {};
      } else if p.s.rehashidx == |p.s.t0.buckets| {
        assert false;
      }
    }
  }

  // A call that leaves something to do has moved n buckets, or has passed 10n empty ones
  // and moved fewer; one that leaves nothing has made the second table the first.
  lemma RehashWork(h: Hash, s: DictState, n: nat)
    requires Inv(h, s) && Rehashing(s) && n > 0
    ensures var s' := Rehash(h, s, n);
      if Rehashing(s') then
        && s.rehashidx < s'.rehashidx < |s.t0.buckets|
        && var moved := NonEmpty(s.t0.buckets, s.rehashidx, s'.rehashidx);
          moved == n || (moved < n && s'.rehashidx == s.rehashidx + moved + 10 * n)
      else |s'.t0.buckets| == |s.t1.buckets| && s'.t1 == NoTable
  {
    hide RehashLoop, Val, LowMask, BucketOk, Members, NonEmpty, Moving, MoveBucket, Skip, Count;
    assert Moving(h, s);
    RehashLoopWork(h, s, n, 10 * n);
    RehashLoopKeeps(h, s, n, 10 * n);
    RehashKeeps(h, s, n);
    EarlyVisits(h, s, n, 10 * n);
  }

  lemma {:induction false} EarlyVisits(h: Hash, s: DictState, n: nat, visits: nat)
    requires Moving(h, s) && (n > 0 ==> visits > 0)
    ensures var p := RehashLoop(h, s, n, visits); p.early ==> p.visits == 0
    decreases n
  {
    hide MoveBucket, Count, Members, BucketOk, Val, LowMask, Disjoint;
    if n != 0 && Count(s.t0.buckets) != 0 {
      SkipStaysInside(h, s, visits);
      var (i, v) := Skip(s.t0.buckets, s.rehashidx, visits);
      var s' := s.(rehashidx := i);
      if v != 0 {
        MoveBucketKeeps(h, s');
        EarlyVisits(h, MoveBucket(h, s'), n - 1, v);
      }
    }
  }

  function RehashTimes(h: Hash, s: DictState, n: nat, calls: nat): DictState
    requires Inv(h, s)
    decreases calls
  {
    if calls == 0 then s else RehashKeeps(h, s, n); RehashTimes(h, Rehash(h, s, n), n, calls - 1)
  }

  // Calling dictRehash with a positive n often enough completes the rehash, and changes nothing else.
  lemma {:induction false} RehashCompletes(h: Hash, s: DictState, n: nat, calls: nat)
    requires Inv(h, s) && n > 0
    requires Rehashing(s) ==> calls >= |s.t0.buckets| - s.rehashidx
    ensures !Rehashing(RehashTimes(h, s, n, calls))
    ensures RehashTimes(h, s, n, calls).t1 == NoTable
    ensures Stored(RehashTimes(h, s, n, calls)) == Stored(s)
    decreases calls
  {
    hide Rehash, Members;
    if calls != 0 {
      RehashKeeps(h, s, n);
      RehashStays(h, s, n);
      RehashCompletes(h, Rehash(h, s, n), n, calls - 1);
    }
  }

  lemma RehashStays(h: Hash, s: DictState, n: nat)
    requires Inv(h, s)
    ensures !Rehashing(s) ==> Rehash(h, s, n) == s
    ensures Rehashing(Rehash(h, s, n)) ==> |Rehash(h, s, n).t0.buckets| == |s.t0.buckets|
  {
    if Rehashing(s) { RehashLoopKeeps(h, s, n, 10 * n); }
  }
}
