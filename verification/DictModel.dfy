// The hash table of dict.c as a value: two tables of chains, and the operations on them.
module DictModel {
  import opened Words

  type Key(==, !new)
  type Value(0)

  // dictType.hashFunction
  type Hash = Key -> bv32

  // dictEntry. The entry is identified by its address; its key never changes.
  class Entry {
    const key: Key
    var val: Value

    constructor (key: Key)
      ensures this.key == key
    {
      this.key := key;
      this.val := *;
    }
  }

  // A bucket, from its head on: the order of the `next` links.
  type Chain = seq<Entry>

  // dictht: the chains from bucket 0 on, and sizemask. No buckets at all stands for a NULL table.
  datatype Table = Table(buckets: seq<Chain>, mask: bv64)

  const NoTable := Table([], 0)

  function Wide(h: bv32): bv64 { h as bv64 }

  // Where a key belongs in a table with the given sizemask.
  function Slot(h: Hash, key: Key, mask: bv64): nat { Val(And(Wide(h(key)), mask)) }

  // It is the hash modulo the number of buckets.
  lemma SlotIs(h: Hash, key: Key, t: Table)
    requires Sized(t) && |t.buckets| > 0
    ensures Slot(h, key, t.mask) == Val(Wide(h(key))) % |t.buckets|
  {
    hide Val, And, LowMask, Wide;
    ValMod(Wide(h(key)), t.mask);
  }

  ghost predicate Distinct(c: Chain) {
    forall i, j :: 0 <= i < j < |c| ==> c[i].key != c[j].key
  }

  ghost predicate BucketOk(h: Hash, mask: bv64, b: nat, c: Chain) {
    && (forall e :: e in c ==> Slot(h, e.key, mask) == b)
    && Distinct(c)
  }

  predicate Sized(t: Table) {
    if |t.buckets| == 0 then t.mask == 0 else LowMask(t.mask) && Val(t.mask) + 1 == |t.buckets|
  }

  ghost predicate TableOk(h: Hash, t: Table) {
    && Sized(t)
    && forall b :: 0 <= b < |t.buckets| ==> BucketOk(h, t.mask, b, t.buckets[b])
  }

  // The entries of a table, and their keys.
  ghost function Members(t: Table): set<Entry> {
    set b, i | 0 <= b < |t.buckets| && 0 <= i < |t.buckets[b]| :: t.buckets[b][i]
  }

  ghost predicate HasKey(t: Table, key: Key) {
    exists e :: e in Members(t) && e.key == key
  }

  // Number of entries, what the field `used` counts.
  function Count(buckets: seq<Chain>): nat {
    if buckets == [] then 0 else |buckets[0]| + Count(buckets[1..])
  }

  // ---- one table ----

  lemma SlotInRange(h: Hash, key: Key, t: Table)
    requires Sized(t) && |t.buckets| > 0
    ensures Slot(h, key, t.mask) < |t.buckets|
  {
    hide And, Val;
    AndBelow(Wide(h(key)), t.mask);
  }

  // An entry of a table is in the bucket its key hashes to, and nowhere else.
  lemma HasInSlot(h: Hash, t: Table, e: Entry)
    requires TableOk(h, t)
    ensures e in Members(t) <==>
      |t.buckets| > 0 && Slot(h, e.key, t.mask) < |t.buckets| && e in t.buckets[Slot(h, e.key, t.mask)]
  {
    hide Slot, Sized;
  }

  lemma OneEntryPerKey(h: Hash, t: Table, e: Entry, f: Entry)
    requires TableOk(h, t) && e in Members(t) && f in Members(t) && e.key == f.key
    ensures e == f
  {
    hide Slot, Sized;
    HasInSlot(h, t, e); HasInSlot(h, t, f);
    var c := t.buckets[Slot(h, e.key, t.mask)];
    var i :| 0 <= i < |c| && c[i] == e;
    var j :| 0 <= j < |c| && c[j] == f;
  }

  // Position of the first entry with the key, or the length of the chain.
  function Locate(c: Chain, key: Key): (i: nat)
    ensures i <= |c| && (i < |c| ==> c[i].key == key)
    ensures forall j :: 0 <= j < i ==> c[j].key != key
  {
    if c == [] then 0 else if c[0].key == key then 0 else
      var i := Locate(c[1..], key);
      assert forall j :: 0 < j < i + 1 ==> c[j] == c[1..][j - 1];
      i + 1
  }

  function Lookup(h: Hash, t: Table, key: Key): Entry?
    requires Sized(t)
  {
    if |t.buckets| == 0 then null
    else
      SlotInRange(h, key, t);
      var c := t.buckets[Slot(h, key, t.mask)];
      var i := Locate(c, key);
      if i < |c| then c[i] else null
  }

  lemma LookupFinds(h: Hash, t: Table, key: Key)
    requires TableOk(h, t)
    ensures var e := Lookup(h, t, key);
      if HasKey(t, key) then e != null && e in Members(t) && e.key == key else e == null
  {
    hide Slot;
    if |t.buckets| > 0 {
      SlotInRange(h, key, t);
      var c := t.buckets[Slot(h, key, t.mask)];
      if HasKey(t, key) {
        var e :| e in Members(t) && e.key == key;
        HasInSlot(h, t, e);
        var j :| 0 <= j < |c| && c[j] == e;
      }
    }
  }

  // Link an entry at the head of its bucket.
  function Push(h: Hash, t: Table, e: Entry): (t': Table)
    requires Sized(t) && |t.buckets| > 0
    ensures Sized(t') && |t'.buckets| == |t.buckets| && t'.mask == t.mask
  {
    SlotInRange(h, e.key, t);
    var b := Slot(h, e.key, t.mask);
    t.(buckets := t.buckets[b := [e] + t.buckets[b]])
  }

  lemma PushAdds(h: Hash, t: Table, e: Entry)
    requires TableOk(h, t) && |t.buckets| > 0 && !HasKey(t, e.key)
    ensures TableOk(h, Push(h, t, e))
    ensures Members(Push(h, t, e)) == Members(t) + {e}
    ensures Count(Push(h, t, e).buckets) == Count(t.buckets) + 1
  {
    hide Slot, Val, LowMask;
    SlotInRange(h, e.key, t);
    var b := Slot(h, e.key, t.mask);
    CountUpdate(t.buckets, b, [e] + t.buckets[b]);
    forall f | f in t.buckets[b] ensures f.key != e.key {
      assert f in Members(t);
    }
    assert BucketOk(h, t.mask, b, [e] + t.buckets[b]);
    PushMembers(t, b, e);
  }

  lemma PushMembers(t: Table, b: nat, e: Entry)
    requires b < |t.buckets|
    ensures Members(t.(buckets := t.buckets[b := [e] + t.buckets[b]])) == Members(t) + {e}
  {
    var t' := t.(buckets := t.buckets[b := [e] + t.buckets[b]]);
    forall f | f in Members(t) ensures f in Members(t') {
      var d, i :| 0 <= d < |t.buckets| && 0 <= i < |t.buckets[d]| && t.buckets[d][i] == f;
      assert t'.buckets[d][if d == b then i + 1 else i] == f;
    }
    assert t'.buckets[b][0] == e;
  }

  lemma {:induction false} CountUpdate(buckets: seq<Chain>, b: nat, c: Chain)
    requires b < |buckets|
    ensures Count(buckets[b := c]) == Count(buckets) - |buckets[b]| + |c|
    decreases |buckets|
  {
    if b == 0 {
      assert buckets[b := c][1..] == buckets[1..];
    } else {
      assert buckets[b := c][1..] == buckets[1..][b - 1 := c];
      CountUpdate(buckets[1..], b - 1, c);
    }
  }

  function Without(c: Chain, i: nat): Chain
    requires i < |c|
  {
    c[..i] + c[i + 1..]
  }

  // Unlink the entry at position i of bucket b.
  function Unlink(t: Table, b: nat, i: nat): Table
    requires b < |t.buckets| && i < |t.buckets[b]|
  {
    t.(buckets := t.buckets[b := Without(t.buckets[b], i)])
  }

  lemma UnlinkRemoves(h: Hash, t: Table, b: nat, i: nat)
    requires TableOk(h, t) && b < |t.buckets| && i < |t.buckets[b]|
    ensures TableOk(h, Unlink(t, b, i))
    ensures Members(Unlink(t, b, i)) == Members(t) - {t.buckets[b][i]}
    ensures Count(Unlink(t, b, i).buckets) == Count(t.buckets) - 1
  {
    hide Slot, Val, LowMask;
    var c := t.buckets[b];
    var t' := Unlink(t, b, i);
    CountUpdate(t.buckets, b, Without(c, i));
    WithoutMembers(c, i);
    assert BucketOk(h, t.mask, b, Without(c, i));
    forall f | f in Members(t') ensures f in Members(t) && f != c[i] {
      var d, j :| 0 <= d < |t'.buckets| && 0 <= j < |t'.buckets[d]| && t'.buckets[d][j] == f;
      assert f in t.buckets[d];
      assert c[i] in t.buckets[b];
    }
    forall f | f in Members(t) && f != c[i] ensures f in Members(t') {
      var d, j :| 0 <= d < |t.buckets| && 0 <= j < |t.buckets[d]| && t.buckets[d][j] == f;
      assert f in t'.buckets[d];
    }
  }

  lemma WithoutMembers(c: Chain, i: nat)
    requires i < |c| && Distinct(c)
    ensures Distinct(Without(c, i))
    ensures forall f :: f in Without(c, i) <==> f in c && f != c[i]
  {
    var w := Without(c, i);
    assert forall k :: 0 <= k < |w| ==> w[k] == if k < i then c[k] else c[k + 1];
    forall f | f in c && f != c[i] ensures f in w {
      var k :| 0 <= k < |c| && c[k] == f;
      assert w[if k < i then k else k - 1] == f;
    }
  }
}
