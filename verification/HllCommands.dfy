// PFADD, PFMERGE and the multi-key PFCOUNT, down to the registers.
module HllCommands {
  import opened HllRegisters
  import opened Hll
  import HllDense
  import HllRaw
  import S = HllSparse

  // What adding the elements with these hashes, in this order, leaves.
  function AddAll(r: Registers, hs: seq<bv64>): Registers {
    if hs == [] then r else
      var before := AddAll(r, hs[..|hs| - 1]);
      Raise(before, Index(hs[|hs| - 1]), Run(hs[|hs| - 1]))
  }

  // A key that does not exist counts as an estimator that has seen nothing.
  ghost function ViewOf(o: Hll?): Registers
    reads o, if o == null then {} else {o.dense}
    requires o != null ==> o.Valid()
  {
    if o == null then Empty() else o.View()
  }

  // PFADD: the reply is 1 exactly when the key was created or a register grew.
  method PfAdd(key: Hll?, hs: seq<bv64>, maxBytes: nat) returns (o: Hll, reply: int)
    requires key != null ==> key.Valid()
    modifies key, if key == null then {} else {key.dense}
    ensures o.Valid() && o.View() == AddAll(old(ViewOf(key)), hs)
    ensures if key == null then fresh(o) && fresh(o.dense)
      else o == key && (o.dense == old(key.dense) || fresh(o.dense))
    ensures reply == if key == null || AddAll(old(ViewOf(key)), hs) != old(ViewOf(key)) then 1 else 0
    ensures o.encoding == Sparse && (key == null || S.Canonical(old(key.sparse))) ==> S.Canonical(o.sparse)
    ensures o.cacheValid ==> key != null && old(key.cacheValid) && o.View() == old(ViewOf(key))
  {
    hide HllDense.RegistersOf, Raise, Index, Run, S.Canonical;
    var updated := 0;
    ghost var start := ViewOf(key);
    if key == null {
      o := new Hll();
      updated := updated + 1;
    } else {
      o := key;
    }
    var j := 0;
    while j < |hs|
      invariant 0 <= j <= |hs| && o.Valid() && o.View() == AddAll(start, hs[..j])
      invariant if key == null then fresh(o) && fresh(o.dense)
        else o == key && (o.dense == old(key.dense) || fresh(o.dense))
      invariant updated >= 0 && (updated == 0 <==> key != null && AddAll(start, hs[..j]) == start)
      invariant updated == 0 ==> key != null && o.cacheValid == old(key.cacheValid)
      invariant o.encoding == Sparse ==> key == null || old(key.encoding) == Sparse
      invariant o.encoding == Sparse && (key == null || S.Canonical(old(key.sparse))) ==> S.Canonical(o.sparse)
    {
      assert hs[..j + 1] == hs[..j] + [hs[j]] && hs[..j + 1][..j] == hs[..j];
      GrowthStays(start, hs[..j], hs[j]);
      var retval := o.Add(hs[j], maxBytes);
      if retval == 1 { updated := updated + 1; }
      j := j + 1;
    }
    assert hs[..|hs|] == hs;
    if updated > 0 {
      o.cacheValid := false;
    }
    reply := if updated > 0 then 1 else 0;
  }

  lemma {:induction false} OnlyGrows(r: Registers, hs: seq<bv64>, i: nat)
    requires i < REGISTERS
    ensures r[i] <= AddAll(r, hs)[i]
    decreases |hs|
  {
    hide Index, Run;
    if hs != [] { OnlyGrows(r, hs[..|hs| - 1], i); }
  }

  // A register that grew never comes back down.
  lemma GrowthStays(r: Registers, hs: seq<bv64>, h: bv64)
    ensures AddAll(r, hs + [h]) == r <==> AddAll(r, hs) == r && Run(h) <= AddAll(r, hs)[Index(h)]
  {
    hide Index, Run;
    assert (hs + [h])[..|hs|] == hs;
    var s := AddAll(r, hs);
    if AddAll(r, hs + [h]) == r {
      forall i | 0 <= i < REGISTERS ensures s[i] == r[i] { OnlyGrows(r, hs, i); }
      assert s == r;
    }
  }

  // ---- commands over several keys ----

  ghost function Objects(keys: seq<Hll?>): set<object> { set k: Hll? | k in keys && k != null :: k as object }

  ghost function Arrays(keys: seq<Hll?>): set<object>
    reads Objects(keys)
  {
    set k: Hll? | k in keys && k != null :: k.dense as object
  }

  ghost predicate AllValid(keys: seq<Hll?>)
    reads Objects(keys), Arrays(keys)
  {
    forall k :: k in keys && k != null ==> k.Valid()
  }

  // What the keys stand for, one by one.
  ghost function Views(keys: seq<Hll?>): (views: seq<Registers>)
    requires AllValid(keys)
    reads Objects(keys), Arrays(keys)
    ensures |views| == |keys| && forall i :: 0 <= i < |keys| ==> views[i] == ViewOf(keys[i])
    decreases |keys|
  {
    if keys == [] then [] else
      KeysWithin(keys, |keys| - 1);
      Views(keys[..|keys| - 1]) + [ViewOf(keys[|keys| - 1])]
  }

  lemma KeysWithin(keys: seq<Hll?>, n: nat)
    requires n < |keys|
    ensures Objects(keys[..n]) <= Objects(keys) && Arrays(keys[..n]) <= Arrays(keys)
    ensures keys[n] != null ==> keys[n] in Objects(keys) && keys[n].dense in Arrays(keys)
  {
    assert forall k :: k in keys[..n] ==> k in keys;
    var k := keys[n];
    if k != null {
      assert k in keys;
      assert (k.dense as object) in Arrays(keys);
    }
  }

  // The union of several estimators.
  function JoinAll(views: seq<Registers>): Registers {
    if views == [] then Empty() else Join(JoinAll(views[..|views| - 1]), views[|views| - 1])
  }

  lemma JoinNothing(r: Registers)
    ensures Join(r, Empty()) == r
  {}

  // The loop shared by PFMERGE and PFCOUNT.
  method MergeKeys(keys: seq<Hll?>) returns (max: array<bv8>)
    requires AllValid(keys)
    ensures fresh(max) && max.Length == REGISTERS && HllRaw.RegistersOf(max[..]) == JoinAll(old(Views(keys)))
    ensures forall i :: 0 <= i < REGISTERS ==> HllRaw.RegistersOf(max[..])[i] < 64
  {
    hide HllRaw.RegistersOf, HllDense.RegistersOf, Join;
    ghost var views := Views(keys);
    max := new bv8[REGISTERS](i => 0);
    AllZero(max[..]);
    var j := 0;
    while j < |keys|
      invariant 0 <= j <= |keys| && HllRaw.RegistersOf(max[..]) == JoinAll(views[..j])
      invariant forall i :: 0 <= i < REGISTERS ==> HllRaw.RegistersOf(max[..])[i] < 64
    {
      var o := keys[j];
      assert views[..j + 1][..j] == views[..j];
      assert views[j] == ViewOf(o);
      if o == null {
        JoinNothing(JoinAll(views[..j]));
      } else {
        ghost var r := HllRaw.RegistersOf(max[..]);
        var ok := o.MergeInto(max);
        assert ok;
        JoinBelow64(r, o);
      }
      j := j + 1;
    }
    assert views[..|keys|] == views;
  }

  lemma AllZero(p: HllRaw.Raw)
    requires forall i :: 0 <= i < REGISTERS ==> p[i] == 0
    ensures HllRaw.RegistersOf(p) == Empty()
  {}

  lemma JoinBelow64(r: Registers, o: Hll)
    requires o.Valid() && forall i :: 0 <= i < REGISTERS ==> r[i] < 64
    ensures forall i :: 0 <= i < REGISTERS ==> Join(r, o.View())[i] < 64
  {
    hide HllDense.RegistersOf;
    forall i | 0 <= i < REGISTERS ensures Join(r, o.View())[i] < 64 { o.Below64(i); }
  }

  // The sum behind PFCOUNT over several keys.
  method PfCountSum(keys: seq<Hll?>, pe: array<real>) returns (e: real, ez: nat)
    requires AllValid(keys) && PowerTable(pe[..])
    ensures e == SumOf(JoinAll(old(Views(keys)))) && ez == ZerosOf(JoinAll(old(Views(keys))))
  {
    hide SumOf, ZerosOf, HllRaw.RegistersOf;
    var max := MergeKeys(keys);
    e, ez := HllRaw.Sum(max, pe);
  }

  // The first n registers of s, the others of r.
  function Overwritten(r: Registers, s: Registers, n: nat): Registers {
    seq(REGISTERS, i requires 0 <= i < REGISTERS => if i < n then s[i] else r[i])
  }

  lemma OverwriteNext(r: Registers, s: Registers, n: nat)
    requires n < REGISTERS
    ensures Overwritten(r, s, n)[n := s[n]] == Overwritten(r, s, n + 1)
  {}

  lemma OverwriteEnds(r: Registers, s: Registers)
    ensures Overwritten(r, s, 0) == r && Overwritten(r, s, REGISTERS) == s
  {}

  lemma SmallNum(b: bv8)
    requires HllRaw.Num(b) < 64
    ensures b <= 63 && (b as nat) == HllRaw.Num(b)
  {}

  // PFMERGE: argv[1] is both a source and the destination.
  method PfMerge(dest: Hll?, sources: seq<Hll?>) returns (o: Hll)
    requires AllValid([dest] + sources)
    modifies dest, if dest == null then {} else {dest.dense}
    ensures o.Valid() && o.View() == JoinAll(old(Views([dest] + sources)))
    ensures o.encoding == Dense && !o.cacheValid
    ensures if dest == null then fresh(o) && fresh(o.dense)
      else o == dest && (o.dense == old(dest.dense) || fresh(o.dense))
  {
    hide HllDense.RegistersOf, HllRaw.RegistersOf, Overwritten, HllDense.Put, HllRaw.Num, Views, JoinAll;
    var max := MergeKeys([dest] + sources);
    ghost var s := HllRaw.RegistersOf(max[..]);
    if dest == null { o := new Hll(); } else { o := dest; assert dest in [dest] + sources; }
    var ok := o.ToDense();
    assert ok;
    var registers := o.dense;
    ghost var r := HllDense.RegistersOf(registers[..]);
    OverwriteEnds(r, s);
    for j := 0 to REGISTERS
      invariant HllDense.RegistersOf(registers[..]) == Overwritten(r, s, j)
      invariant o.Valid() && o.encoding == Dense && o.dense == registers
      invariant HllRaw.RegistersOf(max[..]) == s
    {
      OverwriteNext(r, s, j);
      RawAt(max[..], j);
      SmallNum(max[j]);
      HllDense.SetRegister(registers, j, max[j]);
    }
    o.cacheValid := false;
  }

  lemma RawAt(p: HllRaw.Raw, i: nat)
    requires i < REGISTERS
    ensures HllRaw.RegistersOf(p)[i] == HllRaw.Num(p[i])
  {}
}
