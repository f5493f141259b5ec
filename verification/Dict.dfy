// dict.c: the hash table object. Its bucket arrays, counters and values are updated in place.
module Dict {
  import opened Words
  import opened DictModel
  import opened DictRehash
  import opened DictOps
  import opened DictScan
  import DictIter
  import opened Cursor

  // dictht. Each bucket holds the chain of its entries, from the head on.
  class Ht {
    var table: array<Chain>
    var sizemask: bv64
    var used: nat

    // A table of the given number of empty buckets, or the one without any for 0
    constructor (size: bv64)
      ensures T() == (if size == 0 then NoTable else EmptyTable(size)) && used == 0 && fresh(table)
    {
      hide Val, Pred;
      table := new Chain[if size == 0 then 0 else Val(size)](_ => []);
      sizemask := if size == 0 then 0 else Pred(size);
      used := 0;
    }

    // The table as a value.
    ghost function T(): Table
      reads this, table
    {
      Table(table[..], sizemask)
    }

    // A new entry becomes the head of its bucket's chain.
    method PushHead(hash: Hash, e: Entry)
      requires Sized(T()) && table.Length > 0
      modifies this`used, table
      ensures T() == Push(hash, old(T()), e) && used == old(used) + 1
    {
      hide Val, LowMask;
      SlotInRange(hash, e.key, T());
      var b := Slot(hash, e.key, sizemask);
      table[b] := [e] + table[b];
      used := used + 1;
    }

    // The entry at position i of bucket b leaves the chain and the count.
    method UnlinkAt(b: nat, i: nat)
      requires b < table.Length && i < |table[b]| && used > 0
      modifies this`used, table
      ensures T() == Unlink(old(T()), b, i) && used == old(used) - 1
    {
      table[b] := Without(table[b], i);
      used := used - 1;
    }

    // All the entries in the bucket at the cursor.
    method Bucket(hash: Hash, v: bv64) returns (c: Chain)
      requires TableOk(hash, T()) && table.Length > 0
      ensures ToSet(c) == AtCursor(hash, T(), v)
    {
      hide Val, And, LowMask;
      AndBelow(v, sizemask);
      c := table[Val(And(v, sizemask))];
      BucketIs(hash, T(), v);
    }

    // The loop over the expansions, in this larger table, of the index at the cursor.
    method Expansions(hash: Hash, v: bv64, m0: bv64) returns (emitted: seq<Entry>, w: bv64)
      requires TableOk(hash, T()) && table.Length > 0 && LowMask(m0) && And(m0, sizemask) == m0
      ensures ToSet(emitted) == Expanded(hash, T(), v, m0)
      ensures And(w, m0) == And(v, m0)
    {
      hide Val, And, LowMask, Members, Advance, Wrapped, BucketOk, Expanded, AtCursor, ExpandedBelow;
      NothingBelow(hash, T(), v, m0);
      emitted, w := [], v;
      while true
        invariant And(w, m0) == And(v, m0) && Val(And(v, sizemask)) <= Val(And(w, sizemask))
        invariant ToSet(emitted) == ExpandedBelow(hash, T(), v, m0, w)
        decreases Val(sizemask) - Val(And(w, sizemask))
      {
        ghost var u := w;
        var c := Bucket(hash, w);
        AdvanceLow(w, m0);
        w := Advance(w, m0);
        BlockStep(hash, T(), v, m0, u, w, emitted, c);
        emitted := emitted + c;
        AndBelow(w, sizemask);
        if Wrapped(w, m0, sizemask) {
          return;
        }
      }
    }

    // Walk the chain of the key's bucket.
    method Search(hash: Hash, key: Key) returns (e: Entry?, b: nat, i: nat)
      requires Sized(T()) && table.Length > 0
      ensures e == Lookup(hash, T(), key) && b == Slot(hash, key, sizemask) < table.Length && i == Locate(table[b], key)
      ensures e != null ==> i < |table[b]| && table[b][i] == e
    {
      hide Val, LowMask;
      SlotInRange(hash, key, T());
      b := Slot(hash, key, sizemask);
      i := 0;
      LocateFrom(table[b], key, 0);
      while i < |table[b]|
        invariant i <= |table[b]| && Locate(table[b], key) == i + Locate(table[b][i..], key)
      {
        if table[b][i].key == key {
          return table[b][i], b, i;
        }
        LocateFrom(table[b], key, i);
        i := i + 1;
      }
      e := null;
    }
  }

  lemma LocateFrom(c: Chain, key: Key, i: nat)
    requires i <= |c|
    ensures c[0..] == c
    ensures i < |c| && c[i].key != key ==> Locate(c[i..], key) == 1 + Locate(c[i + 1..], key)
  {
    if i < |c| { assert c[i..][1..] == c[i + 1..]; }
  }

  lemma MoveChainStep(h: Hash, c: Chain, i: nat, t: Table)
    requires Sized(t) && |t.buckets| > 0 && i <= |c|
    ensures i < |c| ==> MoveChain(h, c[i..], t) == MoveChain(h, c[i + 1..], Push(h, t, c[i]))
    ensures i == |c| ==> MoveChain(h, c[i..], t) == t
  {
    if i < |c| { assert c[i..][1..] == c[i + 1..]; }
  }

  // dict
  class Dict {
    const hash: Hash
    var ht0: Ht
    var ht1: Ht
    var rehashidx: int
    var iterators: nat
    var canResize: bool  // dict_can_resize

    // dictCreate
    constructor (hash: Hash)
      ensures Valid() && this.hash == hash && State() == DictState(NoTable, NoTable, -1)
      ensures Contents() == map[] && iterators == 0 && fresh(Objects())
    {
      hide Val, LowMask, Slot, BucketOk;
      this.hash := hash;
      ht0 := new Ht(0);
      ht1 := new Ht(0);
      rehashidx := -1;
      iterators := 0;
      canResize := true;
      new;
      NoTableOk(hash);
      NoTableEmpty();
      assert Stored(State()) == {};
    }

    ghost function Objects(): set<object>
      reads this, ht0, ht1
    {
      {this, ht0, ht1, ht0.table, ht1.table}
    }

    ghost function State(): DictState
      reads `ht0, `ht1, `rehashidx, ht0, ht1, ht0.table, ht1.table
    {
      DictState(ht0.T(), ht1.T(), rehashidx)
    }

    // The counters agree with the tables, which obey the table invariant.
    ghost predicate Counted()
      reads `ht0, `ht1, ht0, ht1, ht0.table, ht1.table
    {
      && ht0 != ht1 && ht0.table != ht1.table
      && ht0.used == Count(ht0.T().buckets) && ht1.used == Count(ht1.T().buckets)
    }

    ghost predicate Valid()
      reads `ht0, `ht1, `rehashidx, ht0, ht1, ht0.table, ht1.table
    {
      Counted() && Inv(hash, State())
    }

    // The mapping the table stands for.
    ghost function Contents(): map<Key, Value>
      requires Valid()
      reads `ht0, `ht1, `rehashidx, ht0, ht1, ht0.table, ht1.table, Stored(State())
    {
      OneValuePerKey(hash, State());
      MapOf(Stored(State()))
    }

    // dictSize
    method Size() returns (n: nat)
      requires Valid()
      ensures n == |Contents()|
    {
      hide Inv, Members, Count;
      DictIter.SizeCounts(hash, State());
      OneValuePerKey(hash, State());
      MapSize(Stored(State()));
      n := ht0.used + ht1.used;
    }

    // The loop of dictRehash over one chain: each entry goes to the head of its bucket in the new table.
    method MoveEntries(c: Chain)
      requires ht0 != ht1 && ht0.table != ht1.table && ht0.used >= |c| && Sized(ht1.T()) && ht1.table.Length > 0
      modifies ht0`used, ht1`used, ht1.table
      ensures ht1.T() == MoveChain(hash, c, old(ht1.T()))
      ensures ht0.used == old(ht0.used) - |c| && ht1.used == old(ht1.used) + |c|
    {
      hide Val, LowMask, Slot, MoveChain, Sized;
      ghost var t := ht1.T();
      var i := 0;
      assert c[0..] == c;
      while i < |c|
        invariant i <= |c| && Sized(ht1.T()) && ht1.table.Length > 0
        invariant MoveChain(hash, c[i..], ht1.T()) == MoveChain(hash, c, t)
        invariant ht0.used == old(ht0.used) - i && ht1.used == old(ht1.used) + i
      {
        MoveChainStep(hash, c, i, ht1.T());
        ht1.PushHead(hash, c[i]);
        ht0.used := ht0.used - 1;
        i := i + 1;
      }
      MoveChainStep(hash, c, i, ht1.T());
    }

    // Move all the keys in the bucket at rehashidx from the old to the new table.
    method MoveBucketAt()
      requires Counted() && Moving(hash, State()) && rehashidx < ht0.table.Length
      modifies this`rehashidx, ht0`used, ht1`used, ht0.table, ht1.table
      ensures Counted() && State() == MoveBucket(hash, old(State()))
    {
      hide Val, LowMask, Slot, BucketOk, Members, Disjoint, MoveChain, Count;
      MoveBucketKeeps(hash, State());
      assert Sized(ht1.T());
      hide Moving, TableOk, Sized;
      MoveEntries(ht0.table[rehashidx]);
      ht0.table[rehashidx] := [];
      rehashidx := rehashidx + 1;
    }

    // The inner loop of dictRehash: go past empty buckets, at most `visits` of them.
    method SkipEmpty(visits: nat) returns (left: nat)
      requires Counted() && Moving(hash, State()) && ht0.used != 0 && visits > 0
      modifies this`rehashidx
      ensures (rehashidx, left) == Skip(ht0.table[..], old(rehashidx), visits)
    {
      hide Val, LowMask, Slot, BucketOk, Members, Disjoint, Count;
      SkipStaysInside(hash, State(), visits);
      left := visits;
      while ht0.table[rehashidx] == []
        invariant 0 <= rehashidx <= Skip(ht0.table[..], old(rehashidx), visits).0 && left > 0
        invariant Skip(ht0.table[..], rehashidx, left) == Skip(ht0.table[..], old(rehashidx), visits)
        decreases left
      {
        rehashidx := rehashidx + 1;
        left := left - 1;
        if left == 0 {
          return;
        }
      }
    }

    // dictRehash
    method Rehash(n: nat) returns (more: bool)
      requires Valid()
      modifies Objects()
      ensures Valid() && State() == DictRehash.Rehash(hash, old(State()), n)
      ensures more == Rehashing(State())
      ensures Stored(State()) == old(Stored(State()))
      ensures iterators == old(iterators) && canResize == old(canResize) && fresh(Objects() - old(Objects()))
    {
      hide Val, TableOk, Sized, Disjoint, MoveBucket, Count, RehashLoop, Skip, Stored;
      if rehashidx == -1 {
        return false;
      }
      ghost var s := State();
      RehashKeeps(hash, s, n);
      RehashEnds(hash, s, n);
      NoTableEmpty();
      var k: nat, emptyVisits: nat := n, n * 10;
      while k != 0 && ht0.used != 0
        invariant Counted() && Moving(hash, State())
        invariant k > 0 ==> emptyVisits > 0
        invariant RehashLoop(hash, State(), k, emptyVisits) == RehashLoop(hash, s, n, 10 * n)
        decreases k
        modifies this`rehashidx, ht0`used, ht1`used, ht0.table, ht1.table
      {
        SkipStaysInside(hash, State(), emptyVisits);
        RehashLoopStep(hash, State(), k, emptyVisits);
        emptyVisits := SkipEmpty(emptyVisits);
        if emptyVisits == 0 {
          return true;
        }
        MoveBucketAt();
        k := k - 1;
      }
      RehashLoopStop(hash, State(), k, emptyVisits);
      if ht0.used == 0 {
        ht0 := ht1;
        ht1 := new Ht(0);
        rehashidx := -1;
        return false;
      }
      return true;
    }

    // dictExpand
    method Expand(size: nat) returns (ok: bool)
      requires Valid() && size < LONG_MAX
      modifies Objects()
      ensures Valid() && State() == DictOps.Expand(old(State()), size).s && ok == DictOps.Expand(old(State()), size).ok
      ensures Stored(State()) == old(Stored(State()))
      ensures iterators == old(iterators) && canResize == old(canResize) && fresh(Objects() - old(Objects()))
    {
      hide Val, OneBit, TableOk, Sized, Disjoint, Count, Stored, EmptyTable, RealSize;
      RealSizeIs(size);
      ExpandKeeps(hash, State(), size);
      EmptyTableOk(hash, RealSize(size));
      NonZeroSize(RealSize(size));
      var realsize := RealSize(size);
      if rehashidx != -1 || ht0.used > size {
        return false;
      }
      if Val(realsize) == ht0.table.Length {
        return false;
      }
      var n := new Ht(realsize);
      if ht0.table.Length == 0 {
        ht0 := n;
        return true;
      }
      ht1 := n;
      rehashidx := 0;
      return true;
    }

    // _dictExpandIfNeeded
    method ExpandIfNeeded() returns (ok: bool)
      requires Valid() && ht0.used * 2 < LONG_MAX
      modifies Objects()
      ensures Valid() && State() == DictOps.ExpandIfNeeded(old(State()), canResize).s
      ensures ok && ht0.table.Length > 0
      ensures Stored(State()) == old(Stored(State()))
      ensures iterators == old(iterators) && canResize == old(canResize) && fresh(Objects() - old(Objects()))
    {
      hide Val, TableOk, Sized, Disjoint, Count, Stored, DictOps.Expand;
      ExpandIfNeededKeeps(hash, State(), canResize);
      if rehashidx != -1 {
        return true;
      }
      if ht0.table.Length == 0 {
        ok := Expand(DICT_HT_INITIAL_SIZE);
        return;
      }
      if ht0.used >= ht0.table.Length && (canResize || ht0.used / ht0.table.Length > DICT_FORCE_RESIZE_RATIO) {
        ok := Expand(ht0.used * 2);
        return;
      }
      return true;
    }

    // What each lookup and update does first: one bucket moves if a rehash is on and no iterator is registered.
    method RehashStep()
      requires Valid()
      modifies Objects()
      ensures Valid() && State() == Step(hash, old(State()), iterators)
      ensures Stored(State()) == old(Stored(State()))
      ensures iterators == old(iterators) && canResize == old(canResize) && fresh(Objects() - old(Objects()))
    {
      hide TableOk, Sized, Disjoint, Count, Stored, DictRehash.Rehash;
      StepIdle(hash, State(), iterators);
      if rehashidx != -1 && iterators == 0 {
        var _ := Rehash(1);
      }
    }

    // Search the chain of the key in the first table and, during a rehash, in the second. When
    // the key is missing, table and b tell where the search ended.
    method SearchTables(key: Key) returns (e: Entry?, table: nat, b: nat, i: nat)
      requires Valid() && ht0.table.Length > 0
      ensures e == Search(hash, State(), key)
      ensures table == if Rehashing(State()) && Lookup(hash, State().t0, key) == null then 1 else 0
      ensures var t := if table == 0 then State().t0 else State().t1;
        && b == Slot(hash, key, t.mask) < |t.buckets| && i == Locate(t.buckets[b], key)
        && (e != null ==> i < |t.buckets[b]|)
    {
      hide Count, Slot, Sized, Lookup, TableOk, Disjoint;
      SizedTables(hash, State());
      table := 0;
      e, b, i := ht0.Search(hash, key);
      if e == null && rehashidx != -1 {
        table := 1;
        e, b, i := ht1.Search(hash, key);
      }
    }

    // _dictKeyIndex: where to insert the key, or -1 if it is there already. The result is a C int.
    method KeyIndex(key: Key) returns (index: int)
      requires Valid() && CountFits(State()) && BucketsFit(DictOps.ExpandIfNeeded(State(), canResize).s)
      modifies Objects()
      ensures Valid() && State() == DictOps.ExpandIfNeeded(old(State()), canResize).s && ht0.table.Length > 0
      ensures Stored(State()) == old(Stored(State())) && BucketsFit(State())
      ensures if StoredKey(old(State()), key) then index == -1
              else index == Slot(hash, key, if Rehashing(State()) then ht1.sizemask else ht0.sizemask)
      ensures iterators == old(iterators) && canResize == old(canResize) && fresh(Objects() - old(Objects()))
    {
      hide Inv, Count, Stored, Slot, Search, Lookup, StoredKey, BucketsFit, DictOps.ExpandIfNeeded;
      ghost var s := State();
      var ok := ExpandIfNeeded();
      SearchFinds(hash, State(), key);
      SameKeys(s, State(), key);
      var e, table, b, i := SearchTables(key);
      LookupNull(hash, State(), key);
      if e != null {
        return -1;
      }
      SlotIsInt(hash, State(), b);
      return CInt(b);
    }

    // dictFind
    method Find(key: Key) returns (e: Entry?)
      requires Valid()
      modifies Objects()
      ensures Valid()
        && State() == (if |old(State()).t0.buckets| == 0 then old(State()) else Step(hash, old(State()), iterators))
      ensures Stored(State()) == old(Stored(State())) && Contents() == old(Contents())
      ensures key in Contents() ==> e != null && e in Stored(State()) && e.key == key && e.val == Contents()[key]
      ensures key !in Contents() ==> e == null
      ensures iterators == old(iterators) && canResize == old(canResize) && fresh(Objects() - old(Objects()))
    {
      hide Inv, Sized, Count, Stored, Search, Lookup, Step, MapOf, StoredKey, UniqueKeys, Slot, Locate;
      OneValuePerKey(hash, State());
      if ht0.table.Length == 0 {
        EmptyDict(hash, State(), key);
        return null;
      }
      StepIdle(hash, State(), iterators);
      RehashStep();
      SizedTables(hash, State());
      SameMap(Stored(State()));
      OneValuePerKey(hash, State());
      SearchInMap(hash, State(), key);
      var table, b, i;
      e, table, b, i := SearchTables(key);
    }

    // Link a new entry into the table being filled.
    method Link(e: Entry)
      requires Valid() && ht0.table.Length > 0 && !StoredKey(State(), e.key)
      modifies ht0`used, ht1`used, ht0.table, ht1.table
      ensures Valid() && State() == Insert(hash, old(State()), e)
      ensures Stored(State()) == old(Stored(State())) + {e}
    {
      hide Inv, Sized, Count, Stored, Members, Slot, StoredKey;
      InsertAdds(hash, State(), e);
      InsertIs(hash, State(), e);
      hide Insert;
      if rehashidx != -1 {
        ht1.PushHead(hash, e);
      } else {
        ht0.PushHead(hash, e);
      }
    }

    // dictAddRaw
    method AddRaw(key: Key) returns (e: Entry?)
      requires Valid() && IntFits(hash, State(), iterators, canResize)
      modifies Objects()
      ensures Valid() && BucketsFit(State())
      ensures var s := Ready(hash, old(State()), iterators, canResize);
        State() == if e == null then s else Insert(hash, s, e)
      ensures e == null <==> StoredKey(old(State()), key)
      ensures Stored(State()) == old(Stored(State())) + (if e == null then {} else {e})
      ensures e != null ==> fresh(e) && e.key == key
      ensures iterators == old(iterators) && canResize == old(canResize) && fresh(Objects() - old(Objects()))
    {
      hide Inv, Count, Stored, Step, Insert, Slot, Ready, StoredKey, DictOps.ExpandIfNeeded;
      ghost var s := State();
      StepFits(hash, s, iterators);
      ReadyIs(hash, s, iterators, canResize);
      RehashStep();
      SameKeys(s, State(), key);
      var index := KeyIndex(key);
      SameKeys(s, State(), key);
      if index == -1 {
        return null;
      }
      e := new Entry(key);
      InsertIs(hash, State(), e);
      Link(e);
    }

    // dictAdd
    method Add(key: Key, val: Value) returns (ok: bool)
      requires Valid() && IntFits(hash, State(), iterators, canResize)
      modifies Objects()
      ensures Valid() && BucketsFit(State())
      ensures ok <==> key !in old(Contents())
      ensures Contents() == if ok then old(Contents())[key := val] else old(Contents())
      ensures Stored(State()) >= old(Stored(State())) && fresh(Stored(State()) - old(Stored(State())))
      ensures !ok ==> Stored(State()) == old(Stored(State()))
      ensures iterators == old(iterators) && canResize == old(canResize) && fresh(Objects() - old(Objects()))
    {
      hide Counted, Inv, Count, Stored, Step, Insert, Slot, IntFits, Ready, StoredKey, BucketsFit, MapOf, UniqueKeys;
      OneValuePerKey(hash, State());
      StoredKeyInMap(State(), key);
      var e := AddRaw(key);
      SameMap(old(Stored(State())));
      if e == null {
        return false;
      }
      e.val := val;
      OneValuePerKey(hash, State());
      SameMap(old(Stored(State())));
      MapPlus(old(Stored(State())), e);
      return true;
    }

    // dictReplace
    method Replace(key: Key, val: Value) returns (added: bool)
      requires Valid() && IntFits(hash, State(), iterators, canResize)
      modifies Objects(), Stored(State())
      ensures Valid()
      ensures added <==> key !in old(Contents())
      ensures Contents() == old(Contents())[key := val]
      ensures iterators == old(iterators) && canResize == old(canResize) && fresh(Objects() - old(Objects()))
    {
      hide Counted, Inv, Count, Stored, Step, Slot, IntFits, BucketsFit, Ready, Members, MapOf, UniqueKeys;
      added := Add(key, val);
      if added {
        return;
      }
      var e := Find(key);
      SetVal(e, val);
    }

    // dictSetVal on an entry of this table
    method SetVal(e: Entry, val: Value)
      requires Valid() && e in Stored(State())
      modifies e`val
      ensures Contents() == old(Contents())[e.key := val]
    {
      hide Inv, UniqueKeys;
      OneValuePerKey(hash, State());
      ghost var es := Stored(State());
      ghost var m := MapOf(es);
      UniqueIn(es);
      e.val := val;
      assert MapOf(es) == m[e.key := val];
    }

    // Unlink the entry with the key, found at position i of bucket b of the given table.
    method Unhook(key: Key, table: nat, b: nat, i: nat)
      requires Valid() && Sized(State().t0) && Sized(State().t1) && Search(hash, State(), key) != null
      requires table == if Rehashing(State()) && Lookup(hash, State().t0, key) == null then 1 else 0
      requires var t := if table == 0 then State().t0 else State().t1;
        b == Slot(hash, key, t.mask) < |t.buckets| && i == Locate(t.buckets[b], key) < |t.buckets[b]|
      modifies ht0`used, ht1`used, ht0.table, ht1.table
      ensures Valid() && State() == Remove(hash, old(State()), key)
      ensures Stored(State()) == old(Stored(State()) - {Search(hash, State(), key)})
    {
      hide Inv, Sized, Count, Stored, Search, Lookup, Slot, Locate, Remove, Unlink;
      RemoveRemoves(hash, State(), key);
      RemoveIs(hash, State(), key, table, b, i);
      if table == 0 { ht0.UnlinkAt(b, i); } else { ht1.UnlinkAt(b, i); }
    }

    // dictGenericDelete
    method Delete(key: Key) returns (ok: bool)
      requires Valid()
      modifies Objects()
      ensures Valid()
      ensures State() == Erased(hash, old(State()), iterators, key)
      ensures ok <==> key in old(Contents())
      ensures Contents() == old(Contents()) - {key}
      ensures Stored(State()) <= old(Stored(State()))
      ensures iterators == old(iterators) && canResize == old(canResize) && fresh(Objects() - old(Objects()))
    {
      hide Inv, Sized, Count, Stored, Search, Lookup, Step, MapOf, StoredKey, UniqueKeys, Slot, Locate, Remove, Unlink;
      OneValuePerKey(hash, State());
      if ht0.table.Length == 0 {
        EmptyDict(hash, State(), key);
        return false;
      }
      StepIdle(hash, State(), iterators);
      RehashStep();
      SizedTables(hash, State());
      SameMap(Stored(State()));
      OneValuePerKey(hash, State());
      SearchInMap(hash, State(), key);
      var e, table, b, i := SearchTables(key);
      if e == null {
        return false;
      }
      MapMinus(Stored(State()), e);
      Unhook(key, table, b, i);
      return true;
    }

    // dictScan. The entries are those handed to the callback.
    method Scan(v: bv64) returns (emitted: seq<Entry>, next: bv64)
      requires Valid()
      ensures ToSet(emitted) == Scanned(hash, State(), v)
      ensures next == ScanNext(State(), v)
    {
      hide Val, And, LowMask, Members, Expanded, AtCursor, Next, Slot, Count, BucketOk;
      if ht0.used + ht1.used == 0 {
        NothingScanned(hash, State(), v);
        return [], 0;
      }
      UsedTable(hash, State());
      MasksNest(hash, State());
      var w := v;
      if rehashidx == -1 {
        emitted := ht0.Bucket(hash, v);
      } else {
        var small, large := ht0, ht1;
        if ht0.table.Length > ht1.table.Length {
          small, large := ht1, ht0;
        }
        emitted := small.Bucket(hash, v);
        var expanded;
        expanded, w := large.Expansions(hash, v, small.sizemask);
        assert ToSet(emitted + expanded) == ToSet(emitted) + ToSet(expanded);
        emitted := emitted + expanded;
      }
      var m0 := if rehashidx != -1 && ht0.table.Length > ht1.table.Length then ht1.sizemask else ht0.sizemask;
      NextFromAdvanced(v, w, m0);
      next := Or(w, Not(m0));
      next := Reverse(next);
      next := Inc(next);
      next := Reverse(next);
    }
  }

  // With 32-bit hashes a bucket number is a non-negative C int exactly up to 2^31 buckets.
  lemma IndexIsInt(mask: bv64)
    requires LowMask(mask)
    ensures (forall x: bv32 :: Val(And(Wide(x), mask)) < 0x8000_0000) <==> Val(mask) < MAX_BUCKETS
  {
    hide Wide, And, Val, LowMask;
    WideTop();
    if Val(mask) < MAX_BUCKETS {
      forall x: bv32 ensures Val(And(Wide(x), mask)) < 0x8000_0000 { AndBelow(Wide(x), mask); }
    } else {
      TopBit(mask);
      assert Val(And(Wide(0x8000_0000), mask)) == 0x8000_0000;
    }
  }

  lemma WideTop()
    ensures Wide(0x8000_0000) == 0x8000_0000
  {}

  lemma TopBit(mask: bv64)
    requires LowMask(mask) && Val(mask) >= 0x8000_0000
    ensures And(0x8000_0000, mask) == 0x8000_0000 && Val(0x8000_0000) == 0x8000_0000
  {
    hide Val;
    PowerVal();
    MaskBit(mask);
    if And(0x8000_0000, mask) != 0x8000_0000 {
      AndBelow(mask, 0x7FFF_FFFF);
      PredVal(0x8000_0000);
    }
  }

  lemma MaskBit(mask: bv64)
    requires LowMask(mask)
    ensures And(0x8000_0000, mask) == 0x8000_0000 || And(mask, 0x7FFF_FFFF) == mask
    ensures Pred(0x8000_0000) == 0x7FFF_FFFF
  {}

  lemma PowerVal()
    ensures Val(0x8000_0000) == 0x8000_0000 && OneBit(0x8000_0000)
  {
    hide Val, OneBit;
    FourIsOneBit();
    TwiceVal(0x4); TwiceVal(0x8); TwiceVal(0x10); TwiceVal(0x20); TwiceVal(0x40); TwiceVal(0x80); TwiceVal(0x100);
    TwiceVal(0x200); TwiceVal(0x400); TwiceVal(0x800); TwiceVal(0x1000); TwiceVal(0x2000); TwiceVal(0x4000);
    TwiceVal(0x8000); TwiceVal(0x10000); TwiceVal(0x20000); TwiceVal(0x40000); TwiceVal(0x80000);
    TwiceVal(0x100000); TwiceVal(0x200000); TwiceVal(0x400000); TwiceVal(0x800000); TwiceVal(0x1000000);
    TwiceVal(0x2000000); TwiceVal(0x4000000); TwiceVal(0x8000000); TwiceVal(0x10000000); TwiceVal(0x20000000);
    TwiceVal(0x40000000);
  }

  // An unsigned int assigned to an int.
  function CInt(u: nat): int
    requires u < 0x1_0000_0000
  {
    if u < 0x8000_0000 then u else u - 0x1_0000_0000
  }

  ghost predicate UniqueKeys(es: set<Entry>) {
    forall e, f :: e in es && f in es && e.key == f.key ==> e == f
  }

  ghost function MapOf(es: set<Entry>): map<Key, Value>
    requires UniqueKeys(es)
    reads es`val
  {
    map e | e in es :: e.key := e.val
  }

  lemma OneValuePerKey(h: Hash, s: DictState)
    requires Inv(h, s)
    ensures UniqueKeys(Stored(s))
  {
    hide Inv, Members;
    forall e, f | e in Stored(s) && f in Stored(s) && e.key == f.key ensures e == f {
      UniqueEntry(h, s, e, f);
    }
  }

  lemma RehashLoopStep(h: Hash, s: DictState, n: nat, visits: nat)
    requires Moving(h, s) && n > 0 && visits > 0 && Count(s.t0.buckets) != 0
    ensures var r := Skip(s.t0.buckets, s.rehashidx, visits);
      var s' := s.(rehashidx := r.0);
      if r.1 == 0 then RehashLoop(h, s, n, visits) == Progress(s', n - 1, 0, true)
      else
        && Moving(h, s') && s'.rehashidx < |s.t0.buckets| && Moving(h, MoveBucket(h, s'))
        && RehashLoop(h, s, n, visits) == RehashLoop(h, MoveBucket(h, s'), n - 1, r.1)
  {
    hide BucketOk, Disjoint, MoveBucket, Skip;
    SkipStaysInside(h, s, visits);
    var (idx, left) := Skip(s.t0.buckets, s.rehashidx, visits);
    if left != 0 { MoveBucketKeeps(h, s.(rehashidx := idx)); }
  }

  lemma RehashLoopStop(h: Hash, s: DictState, n: nat, visits: nat)
    requires Moving(h, s) && (n > 0 ==> visits > 0) && (n == 0 || Count(s.t0.buckets) == 0)
    ensures RehashLoop(h, s, n, visits) == Progress(s, n, visits, false)
  {}

  lemma RehashEnds(h: Hash, s: DictState, n: nat)
    requires Inv(h, s) && Rehashing(s)
    ensures var p := RehashLoop(h, s, n, 10 * n);
      && DictRehash.Rehash(h, s, n) ==
        (if !p.early && Count(p.s.t0.buckets) == 0 then DictState(p.s.t1, NoTable, -1) else p.s)
      && (p.early || Count(p.s.t0.buckets) != 0 ==> Rehashing(p.s))
  {
    RehashLoopKeeps(h, s, n, 10 * n);
  }

  lemma NonZeroSize(i: bv64)
    requires OneBit(i)
    ensures i != 0
  {}

  lemma StepIdle(h: Hash, s: DictState, iterators: nat)
    requires Inv(h, s)
    ensures !Rehashing(s) ==> Step(h, s, iterators) == s
    ensures |s.t0.buckets| > 0 ==> |Step(h, s, iterators).t0.buckets| > 0
  {
    StepKeeps(h, s, iterators);
  }

  // The mapping changes only with the entries or their values.
  twostate lemma SameMap(es: set<Entry>)
    requires UniqueKeys(es) && forall e :: e in es ==> e.val == old(e.val)
    ensures MapOf(es) == old(MapOf(es))
  {}

  lemma EmptyDict(h: Hash, s: DictState, key: Key)
    requires Inv(h, s) && |s.t0.buckets| == 0 && UniqueKeys(Stored(s))
    ensures key !in MapOf(Stored(s))
  {
    NoTableEmpty();
  }

  lemma SearchInMap(h: Hash, s: DictState, key: Key)
    requires Inv(h, s) && UniqueKeys(Stored(s)) && Sized(s.t0) && Sized(s.t1)
    ensures var e := Search(h, s, key); var m := MapOf(Stored(s));
      if key in m then e != null && e in Stored(s) && e.key == key && e.val == m[key] else e == null
  {
    hide Inv, Stored, Lookup;
    SearchFinds(h, s, key);
  }

  lemma SameKeys(s: DictState, s': DictState, key: Key)
    requires Stored(s) == Stored(s')
    ensures StoredKey(s, key) == StoredKey(s', key)
  {}

  lemma InsertIs(h: Hash, s: DictState, e: Entry)
    requires Inv(h, s) && |s.t0.buckets| > 0
    ensures Sized(s.t0) && Sized(s.t1)
    ensures Insert(h, s, e) == if Rehashing(s) then s.(t1 := Push(h, s.t1, e)) else s.(t0 := Push(h, s.t0, e))
    ensures BucketsFit(s) ==> BucketsFit(Insert(h, s, e))
  {
    NoTableOk(h);
  }

  lemma SlotIsInt(h: Hash, s: DictState, b: nat)
    requires BucketsFit(s) && b < |Filled(s).buckets|
    ensures CInt(b) == b
  {}

  lemma LookupNull(h: Hash, s: DictState, key: Key)
    requires Inv(h, s)
    ensures Sized(s.t0) && Sized(s.t1) && (Search(h, s, key) == null ==> Lookup(h, s.t0, key) == null)
  {
    NoTableOk(h);
  }

  lemma MapPlus(es: set<Entry>, e: Entry)
    requires UniqueKeys(es) && UniqueKeys(es + {e})
    ensures MapOf(es + {e}) == MapOf(es)[e.key := e.val]
  {
    var m, m' := MapOf(es)[e.key := e.val], MapOf(es + {e});
    assert forall k :: k in m' <==> k in m;
  }

  lemma MapMinus(es: set<Entry>, e: Entry)
    requires UniqueKeys(es) && e in es
    ensures UniqueKeys(es - {e}) && MapOf(es - {e}) == MapOf(es) - {e.key}
  {}

  lemma StoredKeyInMap(s: DictState, key: Key)
    requires UniqueKeys(Stored(s))
    ensures key in MapOf(Stored(s)) <==> StoredKey(s, key)
  {}

  lemma UniqueIn(es: set<Entry>)
    requires UniqueKeys(es)
    ensures forall e, f :: e in es && f in es && e.key == f.key ==> e == f
  {}

  lemma RemoveIs(h: Hash, s: DictState, key: Key, table: nat, b: nat, i: nat)
    requires Inv(h, s) && Sized(s.t0) && Sized(s.t1) && Search(h, s, key) != null
    requires table == if Rehashing(s) && Lookup(h, s.t0, key) == null then 1 else 0
    requires var t := if table == 0 then s.t0 else s.t1;
      b == Slot(h, key, t.mask) < |t.buckets| && i == Locate(t.buckets[b], key) < |t.buckets[b]|
    ensures Remove(h, s, key) == if table == 0 then s.(t0 := Unlink(s.t0, b, i)) else s.(t1 := Unlink(s.t1, b, i))
    ensures var t := if table == 0 then s.t0 else s.t1;
      Count(Unlink(t, b, i).buckets) == Count(t.buckets) - 1
  {
    hide Slot, Val, LowMask, BucketOk;
    UnlinkRemoves(h, if table == 0 then s.t0 else s.t1, b, i);
  }

  // The part of Expanded below the index at w.
  ghost function ExpandedBelow(h: Hash, t: Table, v: bv64, m0: bv64, w: bv64): set<Entry> {
    set e | e in Expanded(h, t, v, m0) && Val(And(HashOf(h, e), t.mask)) < Val(And(w, t.mask))
  }

  lemma NothingBelow(h: Hash, t: Table, v: bv64, m0: bv64)
    ensures ToSet([]) == ExpandedBelow(h, t, v, m0, v)
  {}

  lemma BucketIs(h: Hash, t: Table, v: bv64)
    requires TableOk(h, t) && |t.buckets| > 0
    ensures Val(And(v, t.mask)) < |t.buckets|
    ensures ToSet(t.buckets[Val(And(v, t.mask))]) == AtCursor(h, t, v)
  {
    hide Val, And, LowMask;
    AndBelow(v, t.mask);
    var b := Val(And(v, t.mask));
    forall e | e in t.buckets[b] ensures e in Members(t) && And(HashOf(h, e), t.mask) == And(v, t.mask) {
      assert Slot(h, e.key, t.mask) == b;
      ValInjective(And(HashOf(h, e), t.mask), And(v, t.mask));
    }
    forall e | e in Members(t) && And(HashOf(h, e), t.mask) == And(v, t.mask) ensures e in t.buckets[b] {
      HasInSlot(h, t, e);
    }
  }

  // What the bucket at u and the advance from u to w add to the entries emitted so far.
  lemma BlockStep(h: Hash, t: Table, v: bv64, m0: bv64, u: bv64, w: bv64, emitted: seq<Entry>, c: Chain)
    requires TableOk(h, t) && |t.buckets| > 0 && LowMask(m0) && And(m0, t.mask) == m0
    requires And(u, m0) == And(v, m0) && Val(And(v, t.mask)) <= Val(And(u, t.mask)) && w == Advance(u, m0)
    requires ToSet(c) == AtCursor(h, t, u) && ToSet(emitted) == ExpandedBelow(h, t, v, m0, u)
    ensures ToSet(emitted + c) ==
      if Wrapped(w, m0, t.mask) then Expanded(h, t, v, m0) else ExpandedBelow(h, t, v, m0, w)
    ensures !Wrapped(w, m0, t.mask) ==> Val(And(u, t.mask)) < Val(And(w, t.mask))
  {
    hide Val, And, LowMask, Members, Advance, Wrapped, BucketOk, HashOf, Reached;
    if !Wrapped(w, m0, t.mask) { AdvanceMoves(u, m0, t.mask); }
    forall e | e in Members(t)
      ensures e in AtCursor(h, t, u) || e in ExpandedBelow(h, t, v, m0, u) <==>
        && Reached(v, m0, t.mask, HashOf(h, e))
        && (Wrapped(w, m0, t.mask) || Val(And(HashOf(h, e), t.mask)) < Val(And(w, t.mask)))
    {
      ReachedStep(v, u, m0, t.mask, HashOf(h, e));
    }
    assert ToSet(emitted + c) == ToSet(emitted) + ToSet(c);
  }

  lemma NothingScanned(h: Hash, s: DictState, v: bv64)
    requires Inv(h, s) && Count(s.t0.buckets) + Count(s.t1.buckets) == 0
    ensures Scanned(h, s, v) == {}
  {
    EmptyCount(s.t0.buckets);
    EmptyCount(s.t1.buckets);
    assert Members(s.t0) == {} && Members(s.t1) == {};
  }

  lemma UsedTable(h: Hash, s: DictState)
    requires Inv(h, s) && Count(s.t0.buckets) + Count(s.t1.buckets) != 0
    ensures |s.t0.buckets| > 0
  {}

  // The bits counted up by the inner loop are overwritten before the cursor moves.
  lemma NextFromAdvanced(v: bv64, w: bv64, m: bv64)
    requires And(w, m) == And(v, m)
    ensures Next(v, m) == Rev(Inc(Rev(Or(w, Not(m)))))
  {
    hide Rev, Inc;
    SameUnmasked(v, w, m);
  }

  lemma SameUnmasked(v: bv64, w: bv64, m: bv64)
    requires And(w, m) == And(v, m)
    ensures Or(w, Not(m)) == Or(v, Not(m))
  {}

  lemma {:induction false} MapSize(es: set<Entry>)
    requires UniqueKeys(es)
    ensures |MapOf(es)| == |es|
    decreases |es|
  {
    if es != {} {
      var e :| e in es;
      MapMinus(es, e);
      MapSize(es - {e});
      assert MapOf(es).Keys == MapOf(es - {e}).Keys + {e.key};
    }
  }
}
