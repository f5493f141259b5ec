// dictIterator: the safe iterator object.
module DictIterator {
  import opened DictModel
  import opened DictRehash
  import opened DictOps
  import opened DictIter
  import opened Dict

  class SafeIterator {
    const d: Dict
    var table: nat
    var index: int
    var entry: Entry?
    var nextEntry: Entry?
    ghost var pending: Chain  // the chain from nextEntry on

    // dictGetSafeIterator
    constructor (d: Dict)
      ensures this.d == d && Position() == Start && entry == null && Valid()
    {
      this.d := d;
      table, index, entry, nextEntry := 0, -1, null, null;
      pending := [];
    }

    ghost function Position(): Iter
      reads this
    {
      Iter(table, index, pending)
    }

    ghost predicate Valid()
      reads this, d`ht0, d`ht1, d`rehashidx, d.ht0, d.ht1, d.ht0.table, d.ht1.table
    {
      && IterOk(d.State(), Position(), null)
      && nextEntry == (if pending == [] then null else pending[0])
      && (if entry == null then pending == [] else index >= 0)
    }

    // dictReleaseIterator: an iterator that was used is no longer registered.
    method Release()
      requires (index == -1 && table == 0) || d.iterators > 0
      modifies d`iterators
      ensures d.iterators == old(d.iterators) - if index == -1 && table == 0 then 0 else 1
    {
      if !(index == -1 && table == 0) { d.iterators := d.iterators - 1; }
    }

    // dictNext
    method Next() returns (e: Entry?)
      requires Valid() && d.Valid()
      modifies this, d`iterators
      ensures Valid()
      ensures Returned(Position(), e) == DictIter.Next(d.State(), old(Position())) && entry == e
      ensures d.iterators == old(d.iterators) + (if old(index) == -1 && old(table) == 0 then 1 else 0)
    {
      hide IterOk, FirstFrom, DictIter.Next, Dict.Valid, Dict.State;
      ghost var s, it := d.State(), Position();
      NextCases(d, Position());
      if index == -1 && table == 0 {
        d.iterators := d.iterators + 1;
      }
      e := if entry == null then null else nextEntry;
      ghost var rest := if e == null then [] else pending[1..];
      if e == null {
        var c;
        table, index, c := FirstBucket(d, table, index + 1);
        if c != [] { e, rest := c[0], c[1..]; }
      }
      var next := null;
      if e != null {
        next := SuccessorOf(d, table, index, rest, e);
      }
      entry, nextEntry, pending := e, next, rest;
    }
  }

  // The turns of dictNext that find iter->entry NULL: the chain of the next non-empty bucket, if any.
  method FirstBucket(d: Dict, table: nat, i: nat) returns (t: nat, j: nat, c: Chain)
    requires table <= 1 && (Rehashing(d.State()) ==> |d.State().t1.buckets| > 0)
    ensures FirstFrom(d.State(), table, i) ==
      if c == [] then Returned(Iter(t, j, []), null) else Returned(Iter(t, j, c[1..]), c[0])
  {
    t, j, c := table, i, [];
    while true
      invariant t <= 1 && c == [] && FirstFrom(d.State(), t, j) == FirstFrom(d.State(), table, i)
      decreases if t == 0 then 1 else 0, |TableAt(d.State(), t).buckets| - j
    {
      if j >= (if t == 0 then d.ht0.table.Length else d.ht1.table.Length) {
        if d.rehashidx == -1 || t == 1 {
          return;
        }
        t, j := 1, 0;
      }
      c := if t == 0 then d.ht0.table[j] else d.ht1.table[j];
      if c != [] {
        return;
      }
      j := j + 1;
    }
  }

  // entry->next, within the entry's chain
  function Successor(c: Chain, e: Entry): Entry? {
    var i := Locate(c, e.key);
    if i + 1 < |c| then c[i + 1] else null
  }

  method SuccessorOf(d: Dict, table: nat, index: int, ghost pending: Chain, e: Entry) returns (next: Entry?)
    requires d.Valid() && IterOk(d.State(), Iter(table, index, pending), e)
    ensures next == if pending == [] then null else pending[0]
  {
    hide Slot, Sized, Members;
    ghost var t := TableAt(d.State(), table);
    var c := if table == 0 then d.ht0.table[index] else d.ht1.table[index];
    SizedTables(d.hash, d.State());
    assert BucketOk(d.hash, t.mask, index, c);
    LocateUnique(c, |c| - |pending| - 1);
    next := Successor(c, e);
  }

  lemma NextCases(d: Dict, it: Iter)
    requires d.Valid() && IterOk(d.State(), it, null)
    ensures it.index >= -1 && it.table <= 1 && (Rehashing(d.State()) ==> |d.State().t1.buckets| > 0)
    ensures var s := d.State(); var r := DictIter.Next(s, it);
      && IterOk(s, r.it, r.e) && IterOk(s, r.it, null) && (r.e != null ==> r.it.index >= 0)
      && (if it.pending != [] then r == Returned(it.(pending := it.pending[1..]), it.pending[0])
          else r == FirstFrom(s, it.table, it.index + 1) && (r.e == null ==> r.it.pending == []))
  {
    hide Inv, FirstFrom;
    var s, h := d.State(), d.hash;
    NextTakes(h, s, it, null);
    SizedTables(h, s);
    if it.pending == [] { NothingPending(s, it.table, it.index + 1); }
  }

  lemma {:induction false} NothingPending(s: DictState, table: nat, i: nat)
    ensures FirstFrom(s, table, i).e == null ==> FirstFrom(s, table, i).it.pending == []
    decreases if table == 0 then 1 else 0, |TableAt(s, table).buckets| - i
  {
    var bs := TableAt(s, table).buckets;
    if i >= |bs| {
      if Rehashing(s) && table == 0 { NothingPending(s, 1, 0); }
    } else if bs[i] == [] {
      NothingPending(s, table, i + 1);
    }
  }
}
