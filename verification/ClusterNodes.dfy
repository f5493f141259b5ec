// One node's view of the cluster: who serves which slot, kept twice, as a table of
// owners and as a bitmap and a counter in every node, and who replicates whom.
module ClusterNodes {
  import opened ClusterBitmap

  datatype Role = Master | Slave | Neither     // the two role flags; Neither while shaking hands

  class ClusterNode {
    const name: nat
    var role: Role
    var slots: Bitmap
    var numslots: int
    var configEpoch: nat
    var slaveof: ClusterNode?
    var slaves: seq<ClusterNode>
    var migrateTo: bool
    var failed: bool
    var votedTime: int

    constructor (name: nat, role: Role)
      ensures this.name == name && this.role == role && numslots == 0 && configEpoch == 0
      ensures slaveof == null && slaves == [] && !failed
      ensures forall j :: 0 <= j < SLOTS ==> !TestBit(slots, j)
    {
      this.name, this.role := name, role;
      slots := seq(SLOTS / 8, i => 0);
      numslots, configEpoch, slaveof, slaves, migrateTo, failed, votedTime := 0, 0, null, [], false, false, 0;
      new;
      NoBits(slots);
    }

    // clusterNodeSetSlotBit
    method SetSlotBit(slot: nat) returns (old': bool)
      requires slot < SLOTS
      modifies this`slots, this`numslots
      ensures old' == TestBit(old(slots), slot)
      ensures numslots == old(numslots) + if old' then 0 else 1
      ensures forall j :: 0 <= j < SLOTS ==> TestBit(slots, j) == (j == slot || TestBit(old(slots), j))
    {
      hide TestBit, SetBit;
      old' := TestBit(slots, slot);
      forall j | 0 <= j < SLOTS
        ensures TestBit(SetBit(slots, slot), j) == (j == slot || TestBit(slots, j)) { SetBitAt(slots, slot, j); }
      slots := SetBit(slots, slot);
      if !old' { numslots := numslots + 1; }
    }

    // clusterNodeClearSlotBit
    method ClearSlotBit(slot: nat) returns (old': bool)
      requires slot < SLOTS
      modifies this`slots, this`numslots
      ensures old' == TestBit(old(slots), slot)
      ensures numslots == old(numslots) - if old' then 1 else 0
      ensures forall j :: 0 <= j < SLOTS ==> TestBit(slots, j) == (j != slot && TestBit(old(slots), j))
    {
      hide TestBit, ClearBit;
      old' := TestBit(slots, slot);
      forall j | 0 <= j < SLOTS
        ensures TestBit(ClearBit(slots, slot), j) == (j != slot && TestBit(slots, j)) { ClearBitAt(slots, slot, j); }
      slots := ClearBit(slots, slot);
      if old' { numslots := numslots - 1; }
    }

    // clusterNodeRemoveSlave
    method RemoveSlave(slave: ClusterNode) returns (ok: bool)
      requires Distinct(slaves)
      modifies this`slaves, this`migrateTo
      ensures ok == (slave in old(slaves)) && Distinct(slaves)
      ensures forall x :: x in slaves <==> x in old(slaves) && x != slave
      ensures migrateTo == (old(migrateTo) && !(ok && slaves == []))
    {
      for j := 0 to |slaves|
        invariant slaves == old(slaves) && slave !in slaves[..j]
      {
        if slaves[j] == slave {
          RemoveAt(slaves, j);
          slaves := slaves[..j] + slaves[j + 1..];
          if |slaves| == 0 { migrateTo := false; }
          return true;
        }
      }
      ok := false;
    }

    // clusterNodeAddSlave
    method AddSlave(slave: ClusterNode) returns (ok: bool)
      requires Distinct(slaves)
      modifies this`slaves, this`migrateTo
      ensures ok == (slave !in old(slaves)) && Distinct(slaves)
      ensures slaves == if ok then old(slaves) + [slave] else old(slaves)
      ensures migrateTo == (old(migrateTo) || ok)
    {
      for j := 0 to |slaves|
        invariant slaves == old(slaves) && slave !in slaves[..j]
      {
        if slaves[j] == slave { return false; }
      }
      slaves := slaves + [slave];
      migrateTo := true;
      ok := true;
    }
  }

  // ---- lists of slaves ----

  predicate Distinct(s: seq<ClusterNode>) { forall i, j :: 0 <= i < j < |s| ==> s[i] != s[j] }

  lemma RemoveAt(s: seq<ClusterNode>, j: nat)
    requires Distinct(s) && j < |s|
    ensures Distinct(s[..j] + s[j + 1..])
    ensures forall x :: x in s[..j] + s[j + 1..] <==> x in s && x != s[j]
  {
    var t := s[..j] + s[j + 1..];
    forall x | x in s && x != s[j] ensures x in t {
      var i :| 0 <= i < |s| && s[i] == x;
      assert t[if i < j then i else i - 1] == x;
    }
  }

  lemma NoBits(b: Bitmap)
    requires forall i :: 0 <= i < |b| ==> b[i] == 0
    ensures forall j :: 0 <= j < SLOTS ==> !TestBit(b, j)
  {
    hide Mask;
    forall j | 0 <= j < SLOTS ensures !TestBit(b, j) { NoBit(b[j / 8], j % 8); }
  }

  lemma NoBit(b: bv8, k: nat)
    requires b == 0 && k < 8
    ensures !Has(b, k)
  {}

  // ---- tables of owners ----

  type Table = seq<ClusterNode?>

  // How many slots of the table n owns.
  function Owned(t: Table, n: ClusterNode): (c: nat)
    ensures c <= |t|
  {
    if t == [] then 0 else Owned(t[..|t| - 1], n) + if t[|t| - 1] == n then 1 else 0
  }

  // How many slots have an owner.
  function Assigned(t: Table): nat {
    if t == [] then 0 else Assigned(t[..|t| - 1]) + if t[|t| - 1] != null then 1 else 0
  }

  lemma {:induction false} OwnedUpdate(t: Table, j: nat, m: ClusterNode?, n: ClusterNode)
    requires j < |t|
    ensures Owned(t[j := m], n) == Owned(t, n) - (if t[j] == n then 1 else 0) + if m == n then 1 else 0
    decreases |t|
  {
    var k := |t| - 1;
    var u := t[j := m];
    if j == k {
      assert u[..k] == t[..k];
    } else {
      assert u[..k] == t[..k][j := m];
      OwnedUpdate(t[..k], j, m, n);
    }
  }

  lemma {:induction false} OwnedNone(t: Table, n: ClusterNode)
    requires forall j :: 0 <= j < |t| ==> t[j] != n
    ensures Owned(t, n) == 0
    decreases |t|
  {
    if t != [] { OwnedNone(t[..|t| - 1], n); }
  }

  lemma {:induction false} OwnedSome(t: Table, n: ClusterNode, j: nat)
    requires j < |t| && t[j] == n
    ensures Owned(t, n) >= 1
    decreases |t|
  {
    if j < |t| - 1 { OwnedSome(t[..|t| - 1], n, j); }
  }

  // Slots owned by a node of ns.
  function OwnedBy(t: Table, ns: set<ClusterNode>): nat {
    if t == [] then 0 else OwnedBy(t[..|t| - 1], ns) + if t[|t| - 1] in ns then 1 else 0
  }

  lemma {:induction false} OwnedByOneMore(t: Table, ns: set<ClusterNode>, n: ClusterNode)
    requires n in ns
    ensures OwnedBy(t, ns) == OwnedBy(t, ns - {n}) + Owned(t, n)
    decreases |t|
  {
    if t != [] { OwnedByOneMore(t[..|t| - 1], ns, n); }
  }

  lemma {:induction false} OwnedByNobody(t: Table)
    ensures OwnedBy(t, {}) == 0
    decreases |t|
  {
    if t != [] { OwnedByNobody(t[..|t| - 1]); }
  }

  lemma {:induction false} OwnedByAll(t: Table, ns: set<ClusterNode>)
    requires forall j :: 0 <= j < |t| && t[j] != null ==> t[j] in ns
    ensures OwnedBy(t, ns) == Assigned(t)
    decreases |t|
  {
    if t != [] {
      var k := |t| - 1;
      assert forall j :: 0 <= j < |t[..k]| && t[..k][j] != null ==> t[..k][j] in ns;
      OwnedByAll(t[..k], ns);
    }
  }

  lemma {:induction false} PopCountIsOwned(t: Table, b: Bitmap, n: ClusterNode, k: nat)
    requires k <= SLOTS == |t|
    requires forall j :: 0 <= j < k ==> TestBit(b, j) == (t[j] == n)
    ensures PopCount(b, k) == Owned(t[..k], n)
    decreases k
  {
    hide TestBit;
    if k > 0 {
      PopCountIsOwned(t, b, n, k - 1);
      assert t[..k][..k - 1] == t[..k - 1];
    }
  }
}
