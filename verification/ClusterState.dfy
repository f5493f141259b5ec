// The state one node keeps about the cluster, and the operations that change
// who serves a slot and who replicates whom.
module ClusterState {
  import opened ClusterBitmap
  import opened ClusterNodes
  import E = ClusterElection
  import Epochs = ClusterEpochs
  import Claims = ClusterClaims

  // What one call of the failover handler did.
  datatype FailoverStep = NotNeeded | DataTooOld | Scheduled | Delayed | Expired | Requested | Won | NoQuorum

  // A vote of this master: for a slave of which master, in which epoch, when, and the
  // time that had to lie between it and the last vote for a slave of that master.
  datatype Grant = Grant(master: ClusterNode, epoch: nat, time: int, wait: nat)

  class Cluster {
    const myself: ClusterNode
    var nodes: set<ClusterNode>
    var slots: Table
    var importing: Table
    var migrating: Table

    var currentEpoch: nat
    var lastVoteEpoch: nat
    var authEpoch: nat           // failover_auth_epoch
    var authCount: nat           // failover_auth_count
    var authSent: bool           // failover_auth_sent
    var authTime: int            // failover_auth_time
    var authRank: nat            // failover_auth_rank
    var size: nat                // masters serving at least one slot
    var manual: bool             // a manual failover is in progress
    var manualReady: bool        // and may start
    ghost var grants: seq<Grant> // the votes so far

    // A node that knows only itself and serves nothing.
    constructor (myself: ClusterNode)
      requires myself.role == Master && myself.numslots == 0 && myself.slaveof == null && myself.slaves == []
      requires myself.configEpoch == 0
      requires forall j :: 0 <= j < SLOTS ==> !TestBit(myself.slots, j)
      ensures this.myself == myself && nodes == {myself} && Inv() && EpochInv() && GrantInv()
      ensures forall j :: 0 <= j < SLOTS ==> slots[j] == null
    {
      this.myself, nodes := myself, {myself};
      var empty := seq(SLOTS, i => null);
      slots, importing, migrating := empty, empty, empty;
      currentEpoch, lastVoteEpoch, authEpoch, authCount, authSent := 0, 0, 0, 0, false;
      authTime, authRank, size, manual, manualReady, grants := 0, 0, 1, false, false, [];
      new;
      OwnedNone(slots, myself);
    }

    // The owner table, the bitmaps and the counters say the same.
    ghost predicate SlotInvOf(ns: set<ClusterNode>)
      reads this`slots, ns`slots, ns`numslots
    {
      && |slots| == SLOTS
      && (forall j :: 0 <= j < SLOTS && slots[j] != null ==> slots[j] in ns)
      && (forall n, j :: n in ns && 0 <= j < SLOTS ==> TestBit(n.slots, j) == (slots[j] == n))
      && (forall n :: n in ns ==> n.numslots == Owned(slots, n))
    }

    ghost predicate SlotInv()
      reads this`nodes, this`slots, nodes`slots, nodes`numslots
    {
      SlotInvOf(nodes)
    }

    // clusterAddSlot
    method AddSlot(n: ClusterNode, slot: nat) returns (ok: bool)
      requires SlotInv() && n in nodes && slot < SLOTS
      modifies this`slots, n`slots, n`numslots
      ensures SlotInv() && ok == (old(slots)[slot] == null)
      ensures slots == if ok then old(slots)[slot := n] else old(slots)
    {
      hide TestBit, Owned;
      if slots[slot] != null { return false; }
      forall m | m in nodes
        ensures Owned(slots[slot := n], m) == Owned(slots, m) + if m == n then 1 else 0
      {
        OwnedUpdate(slots, slot, n, m);
      }
      var was := n.SetSlotBit(slot);
      slots := slots[slot := n];
      ok := true;
    }

    // clusterDelSlot
    method DelSlot(slot: nat) returns (ok: bool)
      requires SlotInv() && slot < SLOTS
      modifies this`slots, nodes`slots, nodes`numslots
      ensures SlotInv() && ok == (old(slots)[slot] != null)
      ensures slots == old(slots)[slot := null]
    {
      hide TestBit, Owned;
      var n := slots[slot];
      if n == null { return false; }
      forall m | m in nodes
        ensures Owned(slots[slot := null], m) == Owned(slots, m) - if m == n then 1 else 0
      {
        OwnedUpdate(slots, slot, null, m);
      }
      var was := n.ClearSlotBit(slot);
      assert was;
      slots := slots[slot := null];
      ok := true;
    }

    // Nodes and their masters know each other, and nobody else.
    ghost predicate LinksOf(ns: set<ClusterNode>)
      reads ns`slaveof, ns`slaves
    {
      && (forall n :: n in ns && n.slaveof != null ==> n.slaveof in ns && n.slaveof != n && n in n.slaveof.slaves)
      && (forall m, n :: m in ns && n in m.slaves ==> n in ns && n.slaveof == m)
      && (forall m :: m in ns ==> Distinct(m.slaves))
    }

    ghost predicate Links()
      reads this`nodes, nodes`slaveof, nodes`slaves
    {
      LinksOf(nodes)
    }

    // Only masters serve slots, only slaves replicate, this node has one role.
    ghost predicate Roles()
      reads this`nodes, nodes`role, nodes`slaveof, nodes`numslots
    {
      && myself in nodes && myself.role != Neither
      && (forall n :: n in nodes && n.slaveof != null ==> n.role == Slave)
      && (forall n :: n in nodes && n.role != Master ==> n.numslots == 0)
      && (myself.role == Slave ==> myself.slaveof != null)
    }

    // No slot is being moved from or to a node that is gone.
    ghost predicate MoveInv()
      reads this`nodes, this`importing, this`migrating
    {
      && |importing| == SLOTS && |migrating| == SLOTS
      && (forall j :: 0 <= j < SLOTS && importing[j] != null ==> importing[j] in nodes)
      && (forall j :: 0 <= j < SLOTS && migrating[j] != null ==> migrating[j] in nodes)
    }

    ghost predicate Inv()
      reads this, nodes
    {
      SlotInv() && Links() && Roles() && MoveInv() && Names()
    }

    lemma OwnerHasSlots(j: nat)
      requires SlotInv() && j < SLOTS && slots[j] != null
      ensures slots[j].numslots >= 1
    {
      OwnedSome(slots, slots[j], j);
    }

    // Take n out of its master's list of slaves.
    method Detach(n: ClusterNode)
      requires Links() && n in nodes && n.slaveof != null
      modifies n`slaveof, nodes`slaves, nodes`migrateTo
      ensures Links() && n.slaveof == null
    {
      hide Distinct;
      var found := n.slaveof.RemoveSlave(n);
      n.slaveof := null;
    }

    // Make n a slave of m.
    method Attach(n: ClusterNode, m: ClusterNode)
      requires Links() && n in nodes && m in nodes && m != n && n.slaveof == null
      modifies n`slaveof, nodes`slaves, nodes`migrateTo
      ensures Links() && n.slaveof == m
    {
      hide Distinct;
      assert n !in m.slaves;
      var added := m.AddSlave(n);
      n.slaveof := m;
      assert forall k :: k in nodes && k != m ==> k.slaves == old(k.slaves);
      assert forall x :: x in m.slaves <==> x in old(m.slaves) || x == n;
    }

    // clusterSetNodeAsMaster
    method SetNodeAsMaster(n: ClusterNode)
      requires Inv() && n in nodes
      modifies n`role, n`slaveof, nodes`slaves, nodes`migrateTo
      ensures Inv() && n.role == Master && n.slaveof == null
    {
      hide SlotInvOf, MoveInv, LinksOf;
      if n.role == Master { return; }
      if n.slaveof != null {
        Detach(n);
        if n != myself { n.migrateTo := true; }
      }
      n.role := Master;
    }

    // clusterCloseAllSlots
    method CloseAllSlots()
      modifies this`importing, this`migrating
      ensures MoveInv()
      ensures forall j :: 0 <= j < SLOTS ==> importing[j] == null && migrating[j] == null
    {
      importing := seq(SLOTS, i => null);
      migrating := seq(SLOTS, i => null);
    }

    // clusterSetMaster: the two assertions of the source are proved, not assumed
    method SetMaster(n: ClusterNode)
      requires Inv() && n in nodes && n != myself && myself.numslots == 0
      modifies myself`role, myself`slaveof, nodes`slaves, nodes`migrateTo, this`importing, this`migrating,
        this`manual, this`manualReady
      ensures Inv() && myself.role == Slave && myself.slaveof == n && !manual && !manualReady
      ensures old(myself.role) == Master ==> forall j :: 0 <= j < SLOTS ==> importing[j] == null && migrating[j] == null
      ensures old(myself.role) != Master ==> importing == old(importing) && migrating == old(migrating)
    {
      hide SlotInvOf, MoveInv, LinksOf;
      if myself.role == Master {
        myself.role := Slave;
        myself.migrateTo := false;
        CloseAllSlots();
      } else if myself.slaveof != null {
        Detach(myself);
      }
      Attach(myself, n);
      manual, manualReady := false, false;
    }

    // clusterDelNodeSlots
    method DelNodeSlots(n: ClusterNode)
      requires SlotInv() && n in nodes
      modifies this`slots, nodes`slots, nodes`numslots
      ensures SlotInv() && n.numslots == 0
      ensures forall j :: 0 <= j < SLOTS ==> slots[j] == if old(slots)[j] == n then null else old(slots)[j]
      ensures forall m :: m in nodes && m != n ==> m.numslots == old(m.numslots)
    {
      hide TestBit, Owned;
      for j := 0 to SLOTS
        invariant SlotInv()
        invariant forall k :: 0 <= k < j ==> slots[k] == if old(slots)[k] == n then null else old(slots)[k]
        invariant forall k :: j <= k < SLOTS ==> slots[k] == old(slots)[k]
      {
        if TestBit(n.slots, j) {
          var ok := DelSlot(j);
        }
      }
      OwnedNone(slots, n);
      forall m | m in nodes && m != n ensures Owned(slots, m) == Owned(old(slots), m) {
        OwnedSame(slots, old(slots), m);
      }
    }

    // The part of clusterProcessPacket that follows a change of role of the sender;
    // master is the node the header names as the sender's master, if it is known.
    method ProcessRole(sender: ClusterNode, claimsMaster: bool, master: ClusterNode?)
      requires Inv() && sender in nodes && sender != myself && sender.role != Neither
      requires master != null ==> master in nodes && master != sender
      modifies sender`role, sender`slaveof, nodes`slaves, nodes`migrateTo, this`slots, nodes`slots, nodes`numslots
      ensures Inv()
      ensures claimsMaster ==> sender.role == Master && slots == old(slots)
      ensures !claimsMaster && old(sender.role) == Master ==>
        forall j :: 0 <= j < SLOTS ==> slots[j] == if old(slots)[j] == sender then null else old(slots)[j]
      ensures !claimsMaster && old(sender.role) != Master ==> slots == old(slots)
      ensures !claimsMaster ==> sender.slaveof == (if master != null then master else old(sender.slaveof))
      ensures !claimsMaster ==> sender.role == Slave
    {
      hide SlotInvOf, MoveInv, LinksOf;
      if claimsMaster {
        SetNodeAsMaster(sender);
      } else {
        if sender.role == Master {
          DelNodeSlots(sender);
          sender.role := Slave;
          sender.migrateTo := false;
        }
        if master != null && sender.slaveof != master {
          if sender.slaveof != null { Detach(sender); }
          Attach(sender, master);
        }
      }
    }

    // A slot goes to the claimant if it is claimed, not being imported, and
    // unassigned or served under a smaller epoch.
    ghost predicate Takes(j: nat, sender: ClusterNode, epoch: nat, claimed: Bitmap)
      requires |slots| == SLOTS == |importing| && j < SLOTS
      reads this`slots, this`importing, slots[j]
    {
      && TestBit(claimed, j) && slots[j] != sender && importing[j] == null
      && (slots[j] == null || slots[j].configEpoch < epoch)
    }

    // The table after a claim, up to slot n.
    twostate predicate Rebound(n: nat, sender: ClusterNode, epoch: nat, claimed: Bitmap)
      requires old(|slots|) == SLOTS == old(|importing|) && |slots| == SLOTS && n <= SLOTS
      reads this`slots
    {
      && (forall j :: 0 <= j < n ==>
        slots[j] == if old(Takes(j, sender, epoch, claimed)) then sender else old(slots)[j])
      && (forall j :: n <= j < SLOTS ==> slots[j] == old(slots)[j])
    }

    // The master whose loss of all slots makes this node change master.
    function CurMaster(): ClusterNode?
      reads myself`role, myself`slaveof
    {
      if myself.role == Master then myself else myself.slaveof
    }

    // The loop of clusterUpdateSlotsConfigWith
    method RebindLoop(sender: ClusterNode, epoch: nat, claimed: Bitmap, hasKeys: set<nat>)
      returns (lost: bool, dirty: seq<nat>)
      requires SlotInv() && MoveInv() && sender in nodes
      modifies this`slots, nodes`slots, nodes`numslots
      ensures SlotInv() && Rebound(SLOTS, sender, epoch, claimed)
      ensures lost <==>
        exists j :: 0 <= j < SLOTS && old(Takes(j, sender, epoch, claimed)) && old(slots)[j] == CurMaster()
      ensures forall j :: j in dirty <==>
        0 <= j < SLOTS && old(Takes(j, sender, epoch, claimed)) && old(slots)[j] == myself && j in hasKeys
    {
      hide TestBit, SlotInvOf;
      assert |slots| == SLOTS by { TableSize(); }
      lost, dirty := false, [];
      for j := 0 to SLOTS
        invariant SlotInv() && |slots| == SLOTS && Rebound(j, sender, epoch, claimed)
        invariant lost <==>
          exists k :: 0 <= k < j && old(Takes(k, sender, epoch, claimed)) && old(slots)[k] == CurMaster()
        invariant forall k :: k in dirty <==>
          0 <= k < j && old(Takes(k, sender, epoch, claimed)) && old(slots)[k] == myself && k in hasKeys
      {
        if TestBit(claimed, j) {
          if slots[j] == sender { continue; }
          if importing[j] != null { continue; }
          if slots[j] == null || slots[j].configEpoch < epoch {
            assert old(Takes(j, sender, epoch, claimed));
            if slots[j] == myself && j in hasKeys && sender != myself { dirty := dirty + [j]; }
            if slots[j] == CurMaster() { lost := true; }
            var deleted := DelSlot(j);
            var added := AddSlot(sender, j);
          }
        }
      }
    }

    // The same, seen slot by slot: it is the step of the model of claims.
    method RebindSlots(sender: ClusterNode, epoch: nat, claimed: Bitmap, hasKeys: set<nat>)
      returns (lost: bool, dirty: seq<nat>)
      requires SlotInv() && MoveInv() && Names() && sender in nodes
      modifies this`slots, nodes`slots, nodes`numslots
      ensures SlotInv() && Rebound(SLOTS, sender, epoch, claimed)
      ensures lost <==>
        exists j :: 0 <= j < SLOTS && old(Takes(j, sender, epoch, claimed)) && old(slots)[j] == CurMaster()
      ensures forall j :: j in dirty <==>
        0 <= j < SLOTS && old(Takes(j, sender, epoch, claimed)) && old(slots)[j] == myself && j in hasKeys
      ensures forall j :: 0 <= j < SLOTS ==>
        SlotView(j) ==
          if TestBit(claimed, j) then Claims.Claim(old(SlotView(j)), sender.name, epoch) else old(SlotView(j))
    {
      hide TestBit, SlotInvOf, Known, Claims.Claim;
      OwnersKnown();
      lost, dirty := RebindLoop(sender, epoch, claimed, hasKeys);
      TableSize();
      forall j | 0 <= j < SLOTS
        ensures SlotView(j) ==
          if TestBit(claimed, j) then Claims.Claim(old(SlotView(j)), sender.name, epoch) else old(SlotView(j))
      {
        ClaimIsTake(old(slots)[j], importing[j] != null, sender, epoch);
      }
    }

    // Who serves the slot after a claim, in the model of claims
    static ghost function OwnerAfter(s: Claims.Slot, sender: ClusterNode, epoch: nat, claims: bool): Claims.Owner {
      (if claims then Claims.Claim(s, sender.name, epoch) else s).owner
    }

    lemma ClaimsAreTakes(sender: ClusterNode, epoch: nat, claimed: Bitmap)
      requires SlotInv() && MoveInv() && Names() && sender in nodes
      ensures |slots| == SLOTS == |importing|
      ensures forall j :: 0 <= j < SLOTS ==>
        OwnerAfter(SlotView(j), sender, epoch, TestBit(claimed, j)) ==
          Owner(if Takes(j, sender, epoch, claimed) then sender else slots[j])
    {
      hide TestBit, Known, Claims.Claim;
      OwnersKnown();
      forall j | 0 <= j < SLOTS
        ensures OwnerAfter(SlotView(j), sender, epoch, TestBit(claimed, j)) ==
          Owner(if Takes(j, sender, epoch, claimed) then sender else slots[j])
      {
        ClaimIsTake(slots[j], importing[j] != null, sender, epoch);
      }
    }

    lemma OwnersKnown()
      requires SlotInv()
      ensures |slots| == SLOTS && forall j :: 0 <= j < SLOTS && slots[j] != null ==> slots[j] in nodes
    {}

    // A claim in the model of one slot is the condition on the table.
    lemma ClaimIsTake(owner: ClusterNode?, isImporting: bool, sender: ClusterNode, epoch: nat)
      requires Names() && sender in nodes && (owner != null ==> owner in nodes)
      ensures Claims.Claim(Claims.Slot(Owner(owner), Known(), isImporting), sender.name, epoch) ==
        Claims.Slot(Owner(if owner != sender && !isImporting && (owner == null || owner.configEpoch < epoch)
          then sender else owner), Known(), isImporting)
    {}

    lemma TableSize()
      requires SlotInv()
      ensures |slots| == SLOTS
    {}

    // clusterUpdateSlotsConfigWith. The result lists the slots whose keys are deleted.
    method UpdateSlotsConfigWith(sender: ClusterNode, epoch: nat, claimed: Bitmap, hasKeys: set<nat>)
      returns (purged: seq<nat>)
      requires Inv() && sender in nodes && sender.role == Master
      modifies this`slots, nodes`slots, nodes`numslots,
        myself`role, myself`slaveof, nodes`slaves, nodes`migrateTo, this`importing, this`migrating,
        this`manual, this`manualReady
      ensures Inv() && |slots| == SLOTS
      ensures if sender == myself then slots == old(slots) else Rebound(SLOTS, sender, epoch, claimed)
      // It changes master exactly when the claim took the last slots of its master.
      ensures sender != myself && LosesMaster() ==>
        myself.role == Slave && myself.slaveof == sender && purged == [] && !manual && !manualReady
      ensures sender == myself || !LosesMaster() ==>
        myself.role == old(myself.role) && myself.slaveof == old(myself.slaveof)
        && importing == old(importing) && migrating == old(migrating)
        && manual == old(manual) && manualReady == old(manualReady)
      ensures sender == myself ==> purged == []
      ensures sender != myself && !LosesMaster() ==>
        forall j :: j in purged <==>
          0 <= j < SLOTS && old(Takes(j, sender, epoch, claimed)) && old(slots)[j] == myself && j in hasKeys
    {
      hide SlotInvOf, MoveInv, LinksOf, Takes;
      assert |slots| == SLOTS && |importing| == SLOTS by { TableSize(); MoveSize(); }
      CurMasterKnown();
      var curmaster := CurMaster();
      if sender == myself { return []; }
      MastersOwn();
      var lost, dirty := RebindSlots(sender, epoch, claimed, hasKeys);
      assert |slots| == SLOTS by { TableSize(); }
      KeepRoles(old(slots), sender);
      purged := [];
      CountZero(curmaster);
      if lost && curmaster.numslots == 0 {
        SetMaster(sender);
      } else if dirty != [] {
        purged := dirty;
      }
    }

    // Whether this node's master had slots and has none left.
    twostate predicate LosesMaster()
      requires old(|slots|) == SLOTS == |slots|
      reads this`slots
    {
      && (exists j :: 0 <= j < SLOTS && old(slots)[j] == old(CurMaster()))
      && (forall j :: 0 <= j < SLOTS ==> slots[j] != old(CurMaster()))
    }

    lemma MoveSize()
      requires MoveInv()
      ensures |importing| == SLOTS
    {}

    // Only masters own slots.
    lemma MastersOwn()
      requires SlotInv() && Roles()
      ensures |slots| == SLOTS && forall j :: 0 <= j < SLOTS && slots[j] != null ==>
        slots[j] in nodes && slots[j].role == Master
    {
      hide TestBit, Owned;
      forall j | 0 <= j < SLOTS && slots[j] != null ensures slots[j].role == Master { OwnerHasSlots(j); }
    }

    lemma CountZero(n: ClusterNode)
      requires SlotInv() && n in nodes
      ensures |slots| == SLOTS && (n.numslots == 0 <==> forall j :: 0 <= j < SLOTS ==> slots[j] != n)
    {
      hide TestBit;
      if forall j :: 0 <= j < SLOTS ==> slots[j] != n {
        OwnedNone(slots, n);
      } else {
        var j :| 0 <= j < SLOTS && slots[j] == n;
        OwnedSome(slots, n, j);
      }
    }

    // Whoever serves slots after they moved to a master, or to nobody, is still a master.
    lemma KeepRoles(was: Table, sender: ClusterNode?)
      requires SlotInv() && |was| == SLOTS && (sender != null ==> sender.role == Master)
      requires forall j :: 0 <= j < SLOTS ==> slots[j] == null || slots[j] == sender || slots[j] == was[j]
      requires forall j :: 0 <= j < SLOTS && was[j] != null ==> was[j].role == Master
      requires myself in nodes && myself.role != Neither && (myself.role == Slave ==> myself.slaveof != null)
      requires forall n :: n in nodes && n.slaveof != null ==> n.role == Slave
      ensures Roles()
    {
      hide TestBit, Owned;
      forall n | n in nodes && n.role != Master ensures n.numslots == 0 {
        OwnedNone(slots, n);
      }
    }

    lemma CurMasterKnown()
      requires Links() && Roles()
      ensures CurMaster() != null && CurMaster() in nodes && (myself.role == Slave ==> CurMaster() != myself)
    {}

    // clusterFailoverReplaceYourMaster: the slots of the old master, and no others, move here.
    method FailoverReplaceYourMaster() returns (done: bool)
      requires Inv()
      modifies this`slots, nodes`slots, nodes`numslots, myself`role, myself`slaveof, nodes`slaves, nodes`migrateTo
      ensures Inv() && |slots| == SLOTS && done == (old(myself.role) == Slave)
      ensures !done ==> slots == old(slots) && myself.role == old(myself.role)
      ensures done ==> myself.role == Master && forall j :: 0 <= j < SLOTS ==>
        slots[j] == if old(slots)[j] == old(myself.slaveof) then myself else old(slots)[j]
    {
      hide SlotInvOf, MoveInv, LinksOf;
      assert |slots| == SLOTS by { TableSize(); }
      var oldmaster := myself.slaveof;
      if myself.role == Master || oldmaster == null { return false; }
      assert oldmaster in nodes && oldmaster != myself by { CurMasterKnown(); }
      MastersOwn();
      SetNodeAsMaster(myself);
      TakeSlots(oldmaster);
      KeepRoles(old(slots), myself);
      done := true;
    }

    // Its loop over the slots of the old master
    method TakeSlots(oldmaster: ClusterNode)
      requires SlotInv() && oldmaster in nodes && myself in nodes && oldmaster != myself
      modifies this`slots, nodes`slots, nodes`numslots
      ensures SlotInv() && |slots| == SLOTS
      ensures forall j :: 0 <= j < SLOTS ==> slots[j] == if old(slots)[j] == oldmaster then myself else old(slots)[j]
    {
      for j := 0 to SLOTS
        invariant SlotInv()
        invariant forall k :: 0 <= k < j ==> slots[k] == if old(slots)[k] == oldmaster then myself else old(slots)[k]
        invariant forall k :: j <= k < SLOTS ==> slots[k] == old(slots)[k]
      {
        hide TestBit, Owned;
        if TestBit(oldmaster.slots, j) {
          var deleted := DelSlot(j);
          var added := AddSlot(myself, j);
        }
      }
    }

    // The loop of clusterDelNode over the slots
    method UnassignSlots(delnode: ClusterNode)
      requires SlotInv() && MoveInv() && delnode in nodes
      modifies this`slots, this`importing, this`migrating, nodes`slots, nodes`numslots
      ensures SlotInv() && MoveInv() && |slots| == SLOTS
      ensures forall j :: 0 <= j < SLOTS ==> slots[j] == if old(slots)[j] == delnode then null else old(slots)[j]
      ensures forall j :: 0 <= j < SLOTS ==> importing[j] != delnode && migrating[j] != delnode
    {
      for j := 0 to SLOTS
        invariant SlotInv() && MoveInv()
        invariant forall k :: 0 <= k < j ==> slots[k] == if old(slots)[k] == delnode then null else old(slots)[k]
        invariant forall k :: j <= k < SLOTS ==> slots[k] == old(slots)[k]
        invariant forall k :: 0 <= k < j ==> importing[k] != delnode && migrating[k] != delnode
      {
        hide TestBit, Owned;
        if importing[j] == delnode { importing := importing[j := null]; }
        if migrating[j] == delnode { migrating := migrating[j := null]; }
        if slots[j] == delnode {
          var deleted := DelSlot(j);
        }
      }
    }

    // The part of freeClusterNode that unlinks the node from its slaves and its master
    method UnlinkNode(n: ClusterNode)
      requires Links() && n in nodes && (n.slaveof != null ==> n.role == Slave)
      modifies nodes`slaveof, nodes`slaves, nodes`migrateTo
      ensures LinksOf(nodes - {n})
      ensures forall m :: m in nodes && m != n ==> m.slaveof == if old(m.slaveof) == n then null else old(m.slaveof)
    {
      hide Distinct;
      for j := 0 to |n.slaves|
        invariant n.slaves == old(n.slaves)
        invariant forall m :: m in nodes ==> m.slaves == old(m.slaves)
        invariant forall m :: m in nodes ==>
          m.slaveof == if m in n.slaves[..j] then null else old(m.slaveof)
      {
        n.slaves[j].slaveof := null;
      }
      assert n.slaves[..|n.slaves|] == n.slaves;
      if n.role == Slave && n.slaveof != null {
        var found := n.slaveof.RemoveSlave(n);
      }
    }

    // clusterDelNode, with the checks its callers make; failure reports are left out
    method DelNode(delnode: ClusterNode)
      requires Inv() && delnode in nodes && delnode != myself && myself.slaveof != delnode
      modifies this`nodes, this`slots, this`importing, this`migrating,
        nodes`slots, nodes`numslots, nodes`slaveof, nodes`slaves, nodes`migrateTo
      ensures Inv() && |slots| == SLOTS && nodes == old(nodes) - {delnode}
      ensures Known() == old(Known()) - {delnode.name} && (old(EpochInv()) ==> EpochInv())
      ensures old(GrantInv()) ==> GrantInv()
      ensures forall j :: 0 <= j < SLOTS ==> slots[j] == if old(slots)[j] == delnode then null else old(slots)[j]
      ensures forall n :: n in nodes ==> n.slaveof == if old(n.slaveof) == delnode then null else old(n.slaveof)
    {
      hide SlotInvOf, LinksOf, KnownOf, GrantInvOf;
      MastersOwn();
      UnassignSlots(delnode);
      KeepRoles(old(slots), null);
      UnlinkNode(delnode);
      FewerNodes(delnode);
      FewerKnown(delnode);
      if GrantInv() { FewerGrants(delnode); }
      nodes := nodes - {delnode};
    }

    // Forgetting a node that owns nothing leaves the table consistent.
    lemma FewerNodes(n: ClusterNode)
      requires SlotInv() && |slots| == SLOTS && forall j :: 0 <= j < SLOTS ==> slots[j] != n
      ensures SlotInvOf(nodes - {n})
    {}

    // A node met for the first time: createClusterNode and clusterAddNode. A node
    // with a name that is in the table already is not added.
    method AddNode(name: nat) returns (n: ClusterNode, ok: bool)
      requires Inv() && EpochInv()
      modifies this`nodes
      ensures Inv() && EpochInv() && fresh(n) && n.name == name && n.role == Neither
      ensures old(GrantInv()) ==> GrantInv()
      ensures ok <==> name !in old(Known())
      ensures nodes == if ok then old(nodes) + {n} else old(nodes)
      ensures Known() == if ok then old(Known())[name := 0] else old(Known())
    {
      hide SlotInvOf, LinksOf, KnownOf, GrantInvOf;
      KnownNames();
      n := new ClusterNode(name, Neither);
      ok := forall m :: m in nodes ==> m.name != name;
      if ok {
        MoreSlots(n);
        MoreLinks(n);
        MoreKnown(n);
        if GrantInv() { MoreGrants(n); }
        nodes := nodes + {n};
      }
    }

    lemma MoreSlots(n: ClusterNode)
      requires SlotInv() && n !in nodes && n.numslots == 0 && forall j :: 0 <= j < SLOTS ==> !TestBit(n.slots, j)
      ensures SlotInvOf(nodes + {n})
    {
      hide TestBit, Owned;
      OwnedNone(slots, n);
    }

    lemma MoreKnown(n: ClusterNode)
      requires Names() && forall m :: m in nodes ==> m.name != n.name
      ensures KnownOf(nodes + {n}) == Known()[n.name := n.configEpoch]
      ensures n.name !in Known()
    {}

    lemma MoreLinks(n: ClusterNode)
      requires Links() && n !in nodes && n.slaveof == null && n.slaves == []
      ensures LinksOf(nodes + {n})
    {}

    // The end of a handshake, when the node's role becomes known
    method EndHandshake(n: ClusterNode, isMaster: bool)
      requires Inv() && n in nodes && n.role == Neither
      modifies n`role
      ensures Inv() && n.role == if isMaster then Master else Slave
    {
      hide SlotInvOf, LinksOf, MoveInv;
      n.role := if isMaster then Master else Slave;
    }

    // ---- epochs ----

    // No node this one knows is configured under an epoch above the current one.
    ghost predicate EpochInv()
      reads this`nodes, this`currentEpoch, this`lastVoteEpoch, this`authEpoch, nodes`configEpoch
    {
      && lastVoteEpoch <= currentEpoch && authEpoch <= currentEpoch
      && forall n :: n in nodes ==> n.configEpoch <= currentEpoch
    }

    // The table of nodes is keyed by their names.
    ghost predicate Names()
      reads this`nodes
    {
      forall m, n :: m in nodes && n in nodes && m.name == n.name ==> m == n
    }

    // The configuration epochs this node knows, by name
    ghost function Known(): map<Epochs.Id, nat>
      requires Names()
      reads this`nodes, nodes`configEpoch
    {
      KnownOf(nodes)
    }

    ghost function KnownOf(ns: set<ClusterNode>): map<Epochs.Id, nat>
      requires forall m, n :: m in ns && n in ns && m.name == n.name ==> m == n
      reads ns`configEpoch
    {
      map n | n in ns :: n.name := n.configEpoch
    }

    lemma KnownNames()
      requires Names()
      ensures forall x :: x in Known() <==> exists n :: n in nodes && n.name == x
    {}

    lemma FewerKnown(n: ClusterNode)
      requires Names() && n in nodes
      ensures KnownOf(nodes - {n}) == Known() - {n.name}
    {}

    lemma KnownAt(x: ClusterNode)
      requires Names() && x in nodes
      ensures x.name in Known() && Known()[x.name] == x.configEpoch
    {}

    // A node's configuration epoch becomes known.
    method Know(n: ClusterNode, epoch: nat)
      requires Names() && n in nodes
      modifies n`configEpoch
      ensures n.configEpoch == epoch && Known() == old(Known())[n.name := epoch]
      ensures old(Known()).Keys == Known().Keys
    {
      n.configEpoch := epoch;
    }

    // This node as the cluster-wide model of the epochs sees it: a slave
    // puts its master's configuration epoch in its headers.
    ghost function EpochView(): Epochs.Node
      requires Names()
      reads this`nodes, nodes`configEpoch, this`currentEpoch, this`authEpoch, myself`role, myself`slaveof
    {
      var speaksFor := if myself.role == Slave && myself.slaveof != null then myself.slaveof.name else myself.name;
      Epochs.Node(currentEpoch, Known(), speaksFor, authEpoch)
    }

    // A slot as the model of claims sees it.
    ghost function SlotView(j: nat): Claims.Slot
      requires Names() && |slots| == SLOTS == |importing| && j < SLOTS
      reads this`nodes, nodes`configEpoch, this`slots, this`importing
    {
      Claims.Slot(Owner(slots[j]), Known(), importing[j] != null)
    }

    static ghost function Owner(n: ClusterNode?): Claims.Owner {
      if n == null then Claims.Unassigned else Claims.By(n.name)
    }

    // clusterGetMaxEpoch
    method GetMaxEpoch() returns (max: nat)
      requires Names()
      ensures currentEpoch <= max && forall n :: n in nodes ==> n.configEpoch <= max
      ensures max == currentEpoch || exists n :: n in nodes && n.configEpoch == max
      ensures EpochInv() ==> max == currentEpoch
      ensures Epochs.IsMaxEpoch(EpochView(), max)
    {
      max := 0;
      var left := nodes;
      while left != {}
        invariant left <= nodes
        invariant forall n :: n in nodes && n !in left ==> n.configEpoch <= max
        invariant max == 0 || exists n :: n in nodes && n.configEpoch == max
        decreases |left|
      {
        var node :| node in left;
        left := left - {node};
        if node.configEpoch > max { max := node.configEpoch; }
      }
      if max < currentEpoch { max := currentEpoch; }
      if max != currentEpoch {
        ghost var node :| node in nodes && node.configEpoch == max;
        assert node.name in Known() && Known()[node.name] == max;
      }
    }

    // clusterBumpConfigEpochWithoutConsensus
    method BumpConfigEpochWithoutConsensus() returns (ok: bool)
      requires Inv() && EpochInv()
      modifies this`currentEpoch, myself`configEpoch
      ensures Inv() && EpochInv()
      ensures ok == (old(myself.configEpoch) == 0 || old(myself.configEpoch) != old(currentEpoch))
      ensures if ok then currentEpoch == old(currentEpoch) + 1 && myself.configEpoch == currentEpoch
              else currentEpoch == old(currentEpoch) && myself.configEpoch == old(myself.configEpoch)
      ensures ok ==> forall n :: n in nodes && n != myself ==> n.configEpoch < myself.configEpoch
      ensures !ok ==> forall n :: n in nodes ==> n.configEpoch <= myself.configEpoch
      ensures EpochView() == if ok then Epochs.TakeEpoch(myself.name, old(EpochView())) else old(EpochView())
    {
      hide SlotInvOf, LinksOf, MoveInv, KnownOf, Known;
      var maxEpoch := GetMaxEpoch();
      if myself.configEpoch == 0 || myself.configEpoch != maxEpoch {
        currentEpoch := currentEpoch + 1;
        Know(myself, currentEpoch);
        ok := true;
      } else {
        ok := false;
      }
    }

    // clusterHandleConfigEpochCollision: the node with the smaller name moves on
    method HandleConfigEpochCollision(sender: ClusterNode) returns (moved: bool)
      requires Inv() && EpochInv() && sender in nodes
      modifies this`currentEpoch, myself`configEpoch
      ensures Inv() && EpochInv()
      ensures moved == (old(sender.configEpoch) == old(myself.configEpoch)
        && sender.role == Master && myself.role == Master && sender.name > myself.name)
      ensures if moved then currentEpoch == old(currentEpoch) + 1 && myself.configEpoch == currentEpoch
              else currentEpoch == old(currentEpoch) && myself.configEpoch == old(myself.configEpoch)
      ensures moved ==> forall n :: n in nodes && n != myself ==> n.configEpoch < myself.configEpoch
      ensures EpochView() == if moved then Epochs.TakeEpoch(myself.name, old(EpochView())) else old(EpochView())
    {
      hide SlotInvOf, LinksOf, MoveInv, KnownOf, Known;
      if sender.configEpoch != myself.configEpoch || sender.role != Master || myself.role != Master { return false; }
      if sender.name <= myself.name { return false; }
      currentEpoch := currentEpoch + 1;
      Know(myself, currentEpoch);
      moved := true;
    }

    // The epochs in the header of any packet from a known node
    method ProcessHeader(sender: ClusterNode, senderCurrentEpoch: nat, senderConfigEpoch: nat)
      requires Inv() && EpochInv() && sender in nodes && senderConfigEpoch <= senderCurrentEpoch
      modifies this`currentEpoch, sender`configEpoch
      ensures Inv() && EpochInv()
      ensures currentEpoch == if senderCurrentEpoch > old(currentEpoch) then senderCurrentEpoch else old(currentEpoch)
      ensures sender.configEpoch ==
        if senderConfigEpoch > old(sender.configEpoch) then senderConfigEpoch else old(sender.configEpoch)
      ensures Elector() == E.See(old(Elector()), senderCurrentEpoch)
      ensures EpochView() ==
        Epochs.See(old(EpochView()), Epochs.Message(sender.name, senderCurrentEpoch, senderConfigEpoch, Epochs.Nothing))
      ensures |slots| == SLOTS == |importing| && forall j :: 0 <= j < SLOTS ==>
        SlotView(j) == Claims.See(old(SlotView(j)), sender.name, senderConfigEpoch)
    {
      hide SlotInvOf, LinksOf, MoveInv, Roles, KnownOf, Known;
      KnownAt(sender);
      TableSize();
      MoveSize();
      if senderCurrentEpoch > currentEpoch { currentEpoch := senderCurrentEpoch; }
      if senderConfigEpoch > sender.configEpoch {
        Know(sender, senderConfigEpoch);
      }
    }

    // The node that news is about is a master, under the epoch of the news.
    method TakeNews(n: ClusterNode, epoch: nat)
      requires Inv() && EpochInv() && n in nodes && n.role != Neither && epoch <= currentEpoch
      modifies n`configEpoch, n`role, n`slaveof, nodes`slaves, nodes`migrateTo
      ensures Inv() && EpochInv() && n.role == Master && n.slaveof == null && n.configEpoch == epoch
      ensures Known() == old(Known())[n.name := epoch]
    {
      hide SlotInvOf, LinksOf, MoveInv, KnownOf, Known;
      if n.role == Slave { SetNodeAsMaster(n); }
      Know(n, epoch);
    }

    // The part of an UPDATE packet after its header: n is the node it is about
    method ProcessUpdate(n: ClusterNode, reportedEpoch: nat, claimed: Bitmap, hasKeys: set<nat>)
      returns (purged: seq<nat>)
      requires Inv() && EpochInv() && n in nodes && n.role != Neither && reportedEpoch <= currentEpoch
      modifies n`configEpoch, n`role, n`slaveof, this`slots, nodes`slots, nodes`numslots,
        myself`role, myself`slaveof, nodes`slaves, nodes`migrateTo, this`importing, this`migrating,
        this`manual, this`manualReady
      ensures Inv() && EpochInv() && |slots| == SLOTS == |old(slots)| && |old(importing)| == SLOTS
      // Old news changes nothing.
      ensures old(n.configEpoch) >= reportedEpoch ==>
        && slots == old(slots) && n.configEpoch == old(n.configEpoch) && n.role == old(n.role)
        && myself.role == old(myself.role) && myself.slaveof == old(myself.slaveof) && purged == []
      // News is about a master, and is its claim.
      ensures old(n.configEpoch) < reportedEpoch ==> n.configEpoch == reportedEpoch && n.role == Master
      ensures old(n.configEpoch) < reportedEpoch && n != myself ==> forall j :: 0 <= j < SLOTS ==>
        Owner(slots[j]) == OwnerAfter(old(SlotView(j)), n, reportedEpoch, TestBit(claimed, j))
      ensures (old(n.configEpoch) < reportedEpoch && n != myself
        && (exists j :: 0 <= j < SLOTS && old(slots)[j] == old(CurMaster()))
        && (forall j :: 0 <= j < SLOTS ==> slots[j] != old(CurMaster()))) ==>
          myself.role == Slave && myself.slaveof == n && purged == []
      ensures (old(n.configEpoch) < reportedEpoch && n != myself
        && ((exists j :: 0 <= j < SLOTS && slots[j] == old(CurMaster()))
        || (forall j :: 0 <= j < SLOTS ==> old(slots)[j] != old(CurMaster())))) ==>
          && myself.role == old(myself.role) && myself.slaveof == old(myself.slaveof)
          && forall j :: j in purged <==>
            0 <= j < SLOTS && old(slots)[j] == myself && slots[j] == n && j in hasKeys
      ensures old(n.configEpoch) < reportedEpoch && n == myself ==> slots == old(slots) && purged == []
      ensures Known() == Epochs.Learn(old(EpochView()), n.name, reportedEpoch).known
      ensures old(n.configEpoch) < reportedEpoch ==>
        forall j :: 0 <= j < SLOTS && TestBit(claimed, j) && n != myself ==>
          slots[j] == n || old(importing)[j] != null || (slots[j] != null && slots[j].configEpoch >= reportedEpoch)
    {
      hide SlotInvOf, LinksOf, MoveInv, Roles, KnownOf, Known, TestBit, OwnerAfter;
      purged := [];
      KnownAt(n);
      ClaimsAreTakes(n, reportedEpoch, claimed);
      if n.configEpoch >= reportedEpoch { return; }
      TakeNews(n, reportedEpoch);
      assert forall j :: 0 <= j < SLOTS ==>
        Takes(j, n, reportedEpoch, claimed) == old(Takes(j, n, reportedEpoch, claimed));
      hide Takes;
      ClaimsAreTakes(n, reportedEpoch, claimed);
      if n == myself {
        purged := UpdateSlotsConfigWith(n, reportedEpoch, claimed, hasKeys);
      } else {
        purged := ApplyClaim(n, reportedEpoch, claimed, hasKeys);
      }
    }

    // A slot that the sender claims although a newer configuration serves it
    ghost predicate Newer(j: nat, sender: ClusterNode, epoch: nat, claimed: Bitmap)
      requires |slots| == SLOTS && j < SLOTS
      reads this`slots, slots[j]
    {
      TestBit(claimed, j) && slots[j] != null && slots[j] != sender && slots[j].configEpoch > epoch
    }

    ghost predicate NewerOwner(sender: ClusterNode, epoch: nat, claimed: Bitmap)
      requires |slots| == SLOTS
      reads this`slots, set j | 0 <= j < SLOTS && slots[j] != null :: slots[j]
    {
      exists j :: 0 <= j < SLOTS && Newer(j, sender, epoch, claimed)
    }

    // The first such slot decides who the sender is told about.
    method FindNewerOwner(sender: ClusterNode, senderConfigEpoch: nat, claimed: Bitmap) returns (update: ClusterNode?)
      requires SlotInv()
      ensures |slots| == SLOTS
      ensures update != null <==> NewerOwner(sender, senderConfigEpoch, claimed)
      ensures update != null ==> update in nodes && update != sender && update.configEpoch > senderConfigEpoch
    {
      hide TestBit, Owned;
      update := null;
      for j := 0 to SLOTS
        invariant forall k :: 0 <= k < j ==> !Newer(k, sender, senderConfigEpoch, claimed)
      {
        if TestBit(claimed, j) {
          if slots[j] == sender || slots[j] == null { continue; }
          if slots[j].configEpoch > senderConfigEpoch {
            assert Newer(j, sender, senderConfigEpoch, claimed);
            return slots[j];
          }
        }
      }
    }

    // The configuration in a PING or PONG, after its header; update is the node
    // the sender must be told about.
    method ProcessConfig(sender: ClusterNode, senderConfigEpoch: nat, claimsMaster: bool, master: ClusterNode?,
        claimed: Bitmap, hasKeys: set<nat>) returns (purged: seq<nat>, update: ClusterNode?)
      requires Inv() && EpochInv() && sender in nodes && sender != myself && sender.role != Neither
      requires master != null ==> master in nodes && master != sender
      requires senderConfigEpoch <= currentEpoch && senderConfigEpoch <= sender.configEpoch
      modifies this`currentEpoch, myself`configEpoch, sender`role, sender`slaveof,
        this`slots, nodes`slots, nodes`numslots, myself`role, myself`slaveof, nodes`slaves, nodes`migrateTo,
        this`importing, this`migrating,
        this`manual, this`manualReady
      ensures Inv() && EpochInv() && currentEpoch >= old(currentEpoch) && myself.configEpoch >= old(myself.configEpoch)
      ensures |slots| == SLOTS == |old(slots)| && |old(importing)| == SLOTS
      ensures sender.role == Master <==> claimsMaster
      ensures !claimsMaster ==> sender.slaveof == if master != null then master else old(sender.slaveof)
      // What becomes of every slot: a master's claim takes what it can and nothing
      // else, a master turned slave loses its slots.
      ensures claimsMaster ==> forall j :: 0 <= j < SLOTS ==>
        Owner(slots[j]) == OwnerAfter(old(SlotView(j)), sender, senderConfigEpoch, TestBit(claimed, j))
      // This node follows the sender exactly when its master had slots and has none
      // left; otherwise the keys of exactly the slots it lost are deleted.
      ensures (claimsMaster && (exists j :: 0 <= j < SLOTS && old(slots)[j] == old(CurMaster()))
        && (forall j :: 0 <= j < SLOTS ==> slots[j] != old(CurMaster()))) ==>
          myself.role == Slave && myself.slaveof == sender && purged == []
      ensures (claimsMaster && ((exists j :: 0 <= j < SLOTS && slots[j] == old(CurMaster()))
        || (forall j :: 0 <= j < SLOTS ==> old(slots)[j] != old(CurMaster())))) ==>
          && myself.role == old(myself.role) && myself.slaveof == old(myself.slaveof)
          && forall j :: j in purged <==>
            0 <= j < SLOTS && old(slots)[j] == myself && slots[j] == sender && j in hasKeys
      ensures !claimsMaster ==> purged == [] && myself.role == old(myself.role) && myself.slaveof == old(myself.slaveof)
      ensures !claimsMaster ==> forall j :: 0 <= j < SLOTS ==>
        slots[j] == if old(slots)[j] == sender then null else old(slots)[j]
      // A master's claim to a slot is met, or the slot is imported here or served under as great an epoch.
      ensures claimsMaster ==> forall j :: 0 <= j < SLOTS && TestBit(claimed, j) ==>
        slots[j] == sender || old(importing)[j] != null
        || (slots[j] != null && slots[j].configEpoch >= senderConfigEpoch)
      // The sender is told about a newer owner of a slot it claims exactly when there is one.
      ensures update != null ==> update in nodes && update != sender && update.configEpoch > senderConfigEpoch
      ensures claimsMaster ==> (update != null <==> old(NewerOwner(sender, senderConfigEpoch, claimed)))
      ensures !claimsMaster ==> update != null ==> sender.slaveof != null && sender.slaveof.slots != claimed
      ensures !claimsMaster && sender.slaveof != null && sender.slaveof.slots != claimed ==>
        (update != null <==> old(NewerOwner(sender, senderConfigEpoch, claimed)))
      // A collision makes the node with the smaller name take a new epoch, and so never survives there.
      ensures var moves := claimsMaster && myself.role == Master && senderConfigEpoch == old(myself.configEpoch)
          && old(sender.configEpoch) == senderConfigEpoch && sender.name > myself.name;
        && currentEpoch == (if moves then old(currentEpoch) + 1 else old(currentEpoch))
        && myself.configEpoch == if moves then currentEpoch else old(myself.configEpoch)
      ensures claimsMaster && senderConfigEpoch == old(sender.configEpoch) ==>
        myself.role == Master && sender.name > myself.name ==> myself.configEpoch != senderConfigEpoch
    {
      hide SlotInvOf, LinksOf, MoveInv, Roles, Names, TestBit, Newer, NewerOwner, OwnerAfter, CurMaster, Known, KnownOf;
      TableSize();
      MoveSize();
      update := null;
      var dirty;
      purged, dirty := TakeConfig(sender, senderConfigEpoch, claimsMaster, master, claimed, hasKeys);
      if dirty {
        update := FindNewerOwner(sender, senderConfigEpoch, claimed);
      }
      if myself.role == Master && sender.role == Master && senderConfigEpoch == myself.configEpoch {
        var moved := HandleConfigEpochCollision(sender);
      }
    }

    // The part before the sender is told anything; dirty says whether the slots in
    // the header differ from what is known of the sender, or of its master.
    method TakeConfig(sender: ClusterNode, senderConfigEpoch: nat, claimsMaster: bool, master: ClusterNode?,
        claimed: Bitmap, hasKeys: set<nat>) returns (purged: seq<nat>, dirty: bool)
      requires Inv() && EpochInv() && sender in nodes && sender != myself && sender.role != Neither
      requires master != null ==> master in nodes && master != sender
      modifies sender`role, sender`slaveof, this`slots, nodes`slots, nodes`numslots,
        myself`role, myself`slaveof, nodes`slaves, nodes`migrateTo, this`importing, this`migrating,
        this`manual, this`manualReady
      ensures Inv() && EpochInv() && |slots| == SLOTS && |old(slots)| == SLOTS == |old(importing)|
      ensures sender.role == Master <==> claimsMaster
      ensures !claimsMaster ==> sender.slaveof == if master != null then master else old(sender.slaveof)
      ensures claimsMaster ==> forall j :: 0 <= j < SLOTS ==>
        Owner(slots[j]) == OwnerAfter(old(SlotView(j)), sender, senderConfigEpoch, TestBit(claimed, j))
      ensures (claimsMaster && (exists j :: 0 <= j < SLOTS && old(slots)[j] == old(CurMaster()))
        && (forall j :: 0 <= j < SLOTS ==> slots[j] != old(CurMaster()))) ==>
          myself.role == Slave && myself.slaveof == sender && purged == []
      ensures (claimsMaster && ((exists j :: 0 <= j < SLOTS && slots[j] == old(CurMaster()))
        || (forall j :: 0 <= j < SLOTS ==> old(slots)[j] != old(CurMaster())))) ==>
          && myself.role == old(myself.role) && myself.slaveof == old(myself.slaveof)
          && forall j :: j in purged <==>
            0 <= j < SLOTS && old(slots)[j] == myself && slots[j] == sender && j in hasKeys
      ensures !claimsMaster ==> purged == [] && myself.role == old(myself.role) && myself.slaveof == old(myself.slaveof)
      ensures !claimsMaster ==> forall j :: 0 <= j < SLOTS ==>
        slots[j] == if old(slots)[j] == sender then null else old(slots)[j]
      ensures claimsMaster ==> forall j :: 0 <= j < SLOTS && TestBit(claimed, j) ==>
        slots[j] == sender || old(importing)[j] != null
        || (slots[j] != null && slots[j].configEpoch >= senderConfigEpoch)
      ensures NewerOwner(sender, senderConfigEpoch, claimed) == old(NewerOwner(sender, senderConfigEpoch, claimed))
      ensures claimsMaster && !dirty ==> !NewerOwner(sender, senderConfigEpoch, claimed)
      ensures !claimsMaster ==> (dirty <==> sender.slaveof != null && sender.slaveof.slots != claimed)
    {
      hide SlotInvOf, LinksOf, MoveInv, Roles, TestBit, OwnerAfter, CurMaster, Known, KnownOf;
      purged := [];
      ClaimsAreTakes(sender, senderConfigEpoch, claimed);
      MastersOwn();
      ProcessRole(sender, claimsMaster, master);
      assert |slots| == SLOTS by { TableSize(); }
      assert forall j :: 0 <= j < SLOTS ==>
        Newer(j, sender, senderConfigEpoch, claimed) == old(Newer(j, sender, senderConfigEpoch, claimed));
      var senderMaster := if sender.role == Master then sender else sender.slaveof;
      dirty := senderMaster != null && senderMaster.slots != claimed;
      if sender.role == Master && dirty {
        purged := ApplyClaim(sender, senderConfigEpoch, claimed, hasKeys);
      } else if sender.role == Master {
        BitmapIsTable(sender);
      }
    }

    lemma BitmapIsTable(n: ClusterNode)
      requires SlotInv() && n in nodes
      ensures |slots| == SLOTS && forall j :: 0 <= j < SLOTS ==> TestBit(n.slots, j) == (slots[j] == n)
    {}

    // A claim of another master, and what holds of each slot it names afterwards
    method ApplyClaim(n: ClusterNode, epoch: nat, claimed: Bitmap, hasKeys: set<nat>) returns (purged: seq<nat>)
      requires Inv() && n in nodes && n.role == Master && n != myself
      modifies this`slots, nodes`slots, nodes`numslots,
        myself`role, myself`slaveof, nodes`slaves, nodes`migrateTo, this`importing, this`migrating,
        this`manual, this`manualReady
      ensures Inv() && |slots| == SLOTS == |old(slots)| && |old(importing)| == SLOTS
      ensures forall j :: 0 <= j < SLOTS ==>
        Owner(slots[j]) == OwnerAfter(old(SlotView(j)), n, epoch, TestBit(claimed, j))
      ensures ((exists j :: 0 <= j < SLOTS && old(slots)[j] == old(CurMaster()))
        && (forall j :: 0 <= j < SLOTS ==> slots[j] != old(CurMaster()))) ==>
          myself.role == Slave && myself.slaveof == n && purged == []
      ensures ((exists j :: 0 <= j < SLOTS && slots[j] == old(CurMaster()))
        || (forall j :: 0 <= j < SLOTS ==> old(slots)[j] != old(CurMaster()))) ==>
          && myself.role == old(myself.role) && myself.slaveof == old(myself.slaveof)
          && forall j :: j in purged <==>
            0 <= j < SLOTS && old(slots)[j] == myself && slots[j] == n && j in hasKeys
      ensures forall j :: 0 <= j < SLOTS && TestBit(claimed, j) ==>
        slots[j] == n || old(importing)[j] != null || (slots[j] != null && slots[j].configEpoch >= epoch)
      ensures NewerOwner(n, epoch, claimed) == old(NewerOwner(n, epoch, claimed))
    {
      hide SlotInvOf, LinksOf, MoveInv, TestBit, Roles, Names, OwnerAfter;
      ClaimsAreTakes(n, epoch, claimed);
      purged := UpdateSlotsConfigWith(n, epoch, claimed, hasKeys);
      forall j | 0 <= j < SLOTS && TestBit(claimed, j)
        ensures slots[j] == n || old(importing)[j] != null || (slots[j] != null && slots[j].configEpoch >= epoch)
      {
        assert slots[j] == if old(Takes(j, n, epoch, claimed)) then n else old(slots)[j];
      }
      assert forall j :: 0 <= j < SLOTS ==> Newer(j, n, epoch, claimed) == old(Newer(j, n, epoch, claimed));
    }

    // ---- elections ----

    // This node's part in elections, as the cluster-wide model sees it.
    ghost function Elector(): E.Elector
      reads this`currentEpoch, this`lastVoteEpoch, this`authEpoch, this`authCount, this`authSent
    {
      E.Elector(currentEpoch, lastVoteEpoch, authEpoch, authCount, authSent)
    }

    // This master votes once an epoch at most, and for the slaves of one master
    // not again before the time that the later vote requires has passed.
    ghost predicate GrantInv()
      reads this`grants, this`lastVoteEpoch, this`nodes, nodes`votedTime
    {
      GrantInvOf(nodes)
    }

    ghost predicate GrantInvOf(ns: set<ClusterNode>)
      reads this`grants, this`lastVoteEpoch, ns`votedTime
    {
      && (forall i, k :: 0 <= i < k < |grants| ==> grants[i].epoch < grants[k].epoch)
      && (forall i, k :: 0 <= i < k < |grants| && grants[i].master == grants[k].master ==>
        grants[k].time - grants[i].time >= grants[k].wait)
      && (forall i :: 0 <= i < |grants| ==> grants[i].epoch <= lastVoteEpoch)
      && (forall i :: 0 <= i < |grants| && grants[i].master in ns ==> grants[i].time <= grants[i].master.votedTime)
    }

    lemma MoreGrants(n: ClusterNode)
      requires GrantInv() && forall i :: 0 <= i < |grants| ==> grants[i].master != n
      ensures GrantInvOf(nodes + {n})
    {}

    lemma FewerGrants(n: ClusterNode)
      requires GrantInv()
      ensures GrantInvOf(nodes - {n})
    {}

    // The claim of a candidate is held against the epochs of those who serve its slots.
    ghost predicate ClaimHolds(claimed: Bitmap, requestConfigEpoch: nat)
      requires |slots| == SLOTS
      reads this`slots, set j | 0 <= j < SLOTS && slots[j] != null :: slots[j]
    {
      forall j :: 0 <= j < SLOTS && TestBit(claimed, j) ==>
        slots[j] == null || slots[j].configEpoch <= requestConfigEpoch
    }

    // clusterSendFailoverAuthIfNeeded; sent says whether an ACK leaves for the node
    method SendFailoverAuthIfNeeded(node: ClusterNode, requestEpoch: nat, requestConfigEpoch: nat, claimed: Bitmap,
        force: bool, now: int, timeout: nat) returns (sent: bool)
      requires Inv() && EpochInv() && GrantInv() && node in nodes && requestEpoch <= currentEpoch
      modifies this`lastVoteEpoch, this`grants, nodes`votedTime
      ensures Inv() && EpochInv() && GrantInv() && |slots| == SLOTS
      // The vote goes to a slave of a failed master (or in a forced failover), no other slave of that
      // master had one lately, and nothing that it claims is served under a newer epoch.
      ensures sent <==>
        && myself.role != Slave && myself.numslots != 0 && E.EpochAllows(old(Elector()), requestEpoch)
        && node.role != Master && node.slaveof != null && (node.slaveof.failed || force)
        && now - old(node.slaveof.votedTime) >= timeout * 2
        && forall j :: 0 <= j < SLOTS && TestBit(claimed, j) ==>
          slots[j] == null || slots[j].configEpoch <= requestConfigEpoch
      ensures Elector() == if sent then E.Voted(old(Elector())) else old(Elector())
      ensures sent ==> requestEpoch == currentEpoch && old(lastVoteEpoch) < lastVoteEpoch
      ensures forall n :: n in nodes ==> n.votedTime == if sent && n == node.slaveof then now else old(n.votedTime)
      ensures !sent ==> grants == old(grants)
      ensures sent ==> grants == old(grants) + [Grant(node.slaveof, currentEpoch, now, timeout * 2)]
    {
      hide SlotInvOf, LinksOf, MoveInv, TestBit;
      assert |slots| == SLOTS by { TableSize(); }
      sent := false;
      var master := node.slaveof;
      if myself.role == Slave || myself.numslots == 0 { return; }
      if requestEpoch < currentEpoch { return; }
      if lastVoteEpoch == currentEpoch { return; }
      if node.role == Master || master == null || (!master.failed && !force) { return; }
      if now - master.votedTime < timeout * 2 { return; }
      var holds := CheckClaim(claimed, requestConfigEpoch);
      if !holds { return; }
      assert master in nodes by { MasterKnown(node); }
      lastVoteEpoch := currentEpoch;
      master.votedTime := now;
      grants := grants + [Grant(master, currentEpoch, now, timeout * 2)];
      sent := true;
    }

    // Its loop over the slots
    method CheckClaim(claimed: Bitmap, requestConfigEpoch: nat) returns (holds: bool)
      requires |slots| == SLOTS
      ensures holds == ClaimHolds(claimed, requestConfigEpoch)
    {
      hide TestBit;
      for j := 0 to SLOTS
        invariant forall k :: 0 <= k < j && TestBit(claimed, k) ==>
          slots[k] == null || slots[k].configEpoch <= requestConfigEpoch
      {
        if !TestBit(claimed, j) { continue; }
        if slots[j] == null || slots[j].configEpoch <= requestConfigEpoch { continue; }
        return false;
      }
      holds := true;
    }

    lemma MasterKnown(n: ClusterNode)
      requires Links() && n in nodes && n.slaveof != null
      ensures n.slaveof in nodes
    {}

    // The FAILOVER_AUTH_ACK branch of clusterProcessPacket
    method ReceiveAck(sender: ClusterNode, senderEpoch: nat)
      requires sender in nodes
      modifies this`authCount
      ensures Elector() == E.Count(old(Elector()), senderEpoch, sender.role == Master && sender.numslots > 0)
      ensures authCount == old(authCount) +
        if sender.role == Master && sender.numslots > 0 && senderEpoch >= authEpoch then 1 else 0
    {
      if sender.role == Master && sender.numslots > 0 && senderEpoch >= authEpoch {
        authCount := authCount + 1;
      }
    }

    // The masters serving at least one slot
    ghost function Voting(): set<ClusterNode>
      reads this`nodes, nodes`role, nodes`numslots
    {
      set n | n in nodes && n.role == Master && n.numslots != 0
    }

    // The part of clusterUpdateState that counts them
    method UpdateSize()
      modifies this`size
      ensures size == |Voting()|
    {
      size := 0;
      var left := nodes;
      ghost var seen: set<ClusterNode> := {};
      while left != {}
        invariant left <= nodes && seen == (set n | n in nodes - left && n.role == Master && n.numslots != 0)
        invariant size == |seen|
        decreases |left|
      {
        var node :| node in left;
        left := left - {node};
        if node.role == Master && node.numslots != 0 {
          size := size + 1;
          seen := seen + {node};
        }
      }
      assert nodes - left == nodes && seen == Voting();
    }

    // The quorum is reached: take the epoch of the election and the slots of the old master.
    method Promote()
      requires Inv() && EpochInv() && myself.role == Slave
      modifies this`manual, this`manualReady, this`slots, nodes`slots, nodes`numslots,
        myself`role, myself`slaveof, myself`configEpoch, nodes`slaves, nodes`migrateTo
      ensures Inv() && EpochInv() && |slots| == SLOTS && myself.role == Master
      ensures !manual && !manualReady
      ensures myself.configEpoch == if old(myself.configEpoch) < authEpoch then authEpoch else old(myself.configEpoch)
      ensures Known() == old(Known())[myself.name := myself.configEpoch]
      ensures forall j :: 0 <= j < SLOTS ==>
        slots[j] == if old(slots)[j] == old(myself.slaveof) then myself else old(slots)[j]
    {
      hide SlotInvOf, LinksOf, MoveInv, KnownOf, Known;
      KnownAt(myself);
      if myself.configEpoch < authEpoch { Know(myself, authEpoch); }
      var done := FailoverReplaceYourMaster();
      manual, manualReady := false, false;
    }

    // A new attempt: the count is cleared, the epoch is left for when the votes are asked for.
    method ScheduleElection(now: int, jitter: nat, rank: nat)
      modifies this`authCount, this`authSent, this`authTime, this`authRank
      ensures Elector() == E.Schedule(old(Elector()))
      ensures authCount == 0 && !authSent
      ensures authTime == if manual then now else now + 500 + jitter + rank * 1000
      ensures authRank == if manual then 0 else rank
    {
      authTime := now + 500 + jitter;
      authCount := 0;
      authSent := false;
      authRank := rank;
      authTime := authTime + authRank * 1000;
      if manual {
        authTime := now;
        authRank := 0;
      }
    }

    // When the votes of the attempt may be asked for: later, if other slaves have
    // got ahead of this one since it was scheduled.
    predicate Overtaken(rank: nat)
      reads this`authSent, this`manual, this`authRank
    {
      !authSent && !manual && rank > authRank
    }

    function StartTime(rank: nat): int
      reads this`authSent, this`manual, this`authRank, this`authTime
    {
      if Overtaken(rank) then authTime + (rank - authRank) * 1000 else authTime
    }

    // clusterHandleSlaveFailover. dataTooOld is the outcome of the check of the data's age;
    // jitter is the random part of the delay, rank the slave's rank by replication offset.
    method HandleSlaveFailover(now: int, timeout: nat, dataTooOld: bool, jitter: nat, rank: nat)
      returns (did: FailoverStep)
      requires Inv() && EpochInv()
      modifies this`currentEpoch, this`authEpoch, this`authCount, this`authSent, this`authTime, this`authRank,
        this`manual, this`manualReady, this`slots, nodes`slots, nodes`numslots,
        myself`role, myself`slaveof, myself`configEpoch, nodes`slaves, nodes`migrateTo
      ensures Inv() && EpochInv() && |slots| == SLOTS
      ensures match did
        case Scheduled => Elector() == E.Schedule(old(Elector()))
        case Requested => !old(authSent) && Elector() == E.Request(old(Elector()))
        case _ => Elector() == old(Elector())
      ensures did.Won? ==> old(myself.role) == Slave && E.Quorum(old(Elector()), size) && myself.role == Master
      ensures did.Won? ==>
        myself.configEpoch == if old(myself.configEpoch) < authEpoch then authEpoch else old(myself.configEpoch)
      ensures did.Requested? ==> EpochView() == old(EpochView()).(currentEpoch := authEpoch, authEpoch := authEpoch)
      ensures did.Won? ==> Known() == old(Known())[myself.name := Epochs.Max(old(myself.configEpoch), authEpoch)]
      ensures did.Won? ==> forall j :: 0 <= j < SLOTS ==>
        slots[j] == if old(slots)[j] == old(myself.slaveof) then myself else old(slots)[j]
      ensures !did.Won? ==>
        slots == old(slots) && myself.role == old(myself.role) && myself.configEpoch == old(myself.configEpoch)
      ensures did.Scheduled? ==> authCount == 0 && !authSent
      ensures did.Requested? ==> currentEpoch == old(currentEpoch) + 1 == authEpoch && authSent
      // The clock and the state decide the answer: one of these conditions holds, and it is the answer's.
      ensures did.NotNeeded? <==>
        old(myself.role == Master || myself.slaveof == null || (!myself.slaveof.failed && !(manual && manualReady))
          || myself.slaveof.numslots == 0)
      ensures did.DataTooOld? <==> !did.NotNeeded? && dataTooOld && !(old(manual) && old(manualReady))
      ensures var due, limit := !did.NotNeeded? && !did.DataTooOld?, if timeout * 2 < 2000 then 2000 else timeout * 2;
        && (did.Scheduled? <==> due && now > old(authTime) + 2 * limit)
        && (did.Delayed? <==> due && now <= old(authTime) + 2 * limit && now < authTime)
        && (did.Expired? <==> due && now <= old(authTime) + 2 * limit && authTime <= now && now > old(authTime) + limit)
        && (did.Requested? <==> due && authTime <= now <= old(authTime) + limit && !old(authSent))
        && (did.Won? <==>
          due && authTime <= now <= old(authTime) + limit && old(authSent) && old(authCount) >= size / 2 + 1)
      // An attempt starts half a second and a random delay from now, and a second later for each rank; a
      // slave that others overtake while it waits adds a second for each. A manual failover does not wait.
      ensures did.Scheduled? ==>
        authTime == if old(manual) then now else now + 500 + jitter + rank * 1000
      ensures did.Scheduled? ==> authRank == if old(manual) then 0 else rank
      ensures did.NotNeeded? || did.DataTooOld? ==> authTime == old(authTime) && authRank == old(authRank)
      ensures !did.NotNeeded? && !did.DataTooOld? && !did.Scheduled? ==>
        if !old(authSent) && !old(manual) && rank > old(authRank)
        then authRank == rank && authTime == old(authTime) + (rank - old(authRank)) * 1000
        else authTime == old(authTime) && authRank == old(authRank)
      ensures manual == (old(manual) && !did.Won?) && manualReady == (old(manualReady) && !did.Won?)
    {
      hide SlotInvOf, LinksOf, MoveInv, Known, KnownOf, Names, E.Schedule;
      assert |slots| == SLOTS by { TableSize(); }
      if myself.role == Master || myself.slaveof == null { return NotNeeded; }
      var manualFailover := manual && manualReady;
      if (!myself.slaveof.failed && !manualFailover) || myself.slaveof.numslots == 0 { return NotNeeded; }
      if dataTooOld && !manualFailover { return DataTooOld; }
      did := RunAttempt(now, if timeout * 2 < 2000 then 2000 else timeout * 2, jitter, rank);
    }

    // An attempt is replaced exactly when twice its timeout has passed; until then it waits for its
    // start, and from then to its timeout it asks for votes once, and wins once it has the quorum.
    static ghost predicate Answered(did: FailoverStep, due: bool, now: int, time: int, start: int, limit: nat,
      sent: bool, quorum: bool)
    {
      && (did.Scheduled? <==> due && now > time + 2 * limit)
      && (did.Delayed? <==> due && now <= time + 2 * limit && now < start)
      && (did.Expired? <==> due && now <= time + 2 * limit && start <= now && now > time + limit)
      && (did.Requested? <==> due && start <= now <= time + limit && !sent)
      && (did.Won? <==> due && start <= now <= time + limit && sent && quorum)
      && (did.NoQuorum? <==> due && start <= now <= time + limit && sent && !quorum)
    }

    ghost predicate Timed(did: FailoverStep, now: int, jitter: nat, rank: nat, wasManual: bool, time: int,
      oldRank: nat, start: int, overtaken: bool)
      reads this`authTime, this`authRank
    {
      match did
      case NotNeeded => authTime == time && authRank == oldRank
      case DataTooOld => authTime == time && authRank == oldRank
      case Scheduled =>
        && authTime == (if wasManual then now else now + 500 + jitter + rank * 1000)
        && authRank == if wasManual then 0 else rank
      case _ => authTime == start && authRank == if overtaken then rank else oldRank
    }

    // A slave that others have overtaken waits longer.
    method UpdateRank(rank: nat)
      modifies this`authTime, this`authRank
      ensures authTime == old(StartTime(rank)) && authRank == if old(Overtaken(rank)) then rank else old(authRank)
    {
      if !authSent && !manual {
        if rank > authRank {
          authTime := authTime + (rank - authRank) * 1000;
          authRank := rank;
        }
      }
    }

    // The request for votes, which takes a new epoch
    method AskForVotes()
      requires Inv() && EpochInv() && !authSent
      modifies this`currentEpoch, this`authEpoch, this`authSent
      ensures Inv() && EpochInv() && Elector() == E.Request(old(Elector()))
      ensures EpochView() == old(EpochView()).(currentEpoch := authEpoch, authEpoch := authEpoch)
    {
      hide SlotInvOf, LinksOf, MoveInv, Roles, Known, KnownOf, Names;
      currentEpoch := currentEpoch + 1;
      authEpoch := currentEpoch;
      authSent := true;
    }

    // The rest of it, once a failover is due
    method RunAttempt(now: int, authTimeout: nat, jitter: nat, rank: nat) returns (did: FailoverStep)
      requires Inv() && EpochInv() && myself.role == Slave
      modifies this`currentEpoch, this`authEpoch, this`authCount, this`authSent, this`authTime, this`authRank,
        this`manual, this`manualReady, this`slots, nodes`slots, nodes`numslots,
        myself`role, myself`slaveof, myself`configEpoch, nodes`slaves, nodes`migrateTo
      ensures Inv() && EpochInv() && |slots| == SLOTS
      ensures match did
        case Scheduled => Elector() == E.Schedule(old(Elector()))
        case Requested => !old(authSent) && Elector() == E.Request(old(Elector()))
        case _ => Elector() == old(Elector())
      ensures did.Won? ==> old(myself.role) == Slave && E.Quorum(old(Elector()), size) && myself.role == Master
      ensures did.Won? ==>
        myself.configEpoch == if old(myself.configEpoch) < authEpoch then authEpoch else old(myself.configEpoch)
      ensures did.Requested? ==> EpochView() == old(EpochView()).(currentEpoch := authEpoch, authEpoch := authEpoch)
      ensures did.Won? ==> Known() == old(Known())[myself.name := Epochs.Max(old(myself.configEpoch), authEpoch)]
      ensures did.Won? ==> forall j :: 0 <= j < SLOTS ==>
        slots[j] == if old(slots)[j] == old(myself.slaveof) then myself else old(slots)[j]
      ensures !did.Won? ==>
        slots == old(slots) && myself.role == old(myself.role) && myself.configEpoch == old(myself.configEpoch)
      ensures did.Scheduled? ==> authCount == 0 && !authSent
      ensures Answered(did, true, now, old(authTime), old(StartTime(rank)), authTimeout, old(authSent),
        E.Quorum(old(Elector()), size))
      ensures Timed(did, now, jitter, rank, old(manual), old(authTime), old(authRank), old(StartTime(rank)),
        old(Overtaken(rank)))
      ensures manual == (old(manual) && !did.Won?) && manualReady == (old(manualReady) && !did.Won?)
    {
      hide SlotInvOf, LinksOf, MoveInv, Known, KnownOf, Names, E.Schedule;
      assert |slots| == SLOTS by { TableSize(); }
      var authAge := now - authTime;
      var neededQuorum := size / 2 + 1;
      var authRetryTime := authTimeout * 2;
      if authAge > authRetryTime {
        ScheduleElection(now, jitter, rank);
        return Scheduled;
      }
      UpdateRank(rank);
      if now < authTime { return Delayed; }
      if authAge > authTimeout { return Expired; }
      if !authSent {
        AskForVotes();
        return Requested;
      }
      if authCount >= neededQuorum {
        Promote();
        return Won;
      }
      did := NoQuorum;
    }

    // ---- what the invariant says about the counters ----

    ghost function SumSlots(ns: set<ClusterNode>): int
      reads ns`numslots
      decreases |ns|
    {
      if ns == {} then 0 else
        var n :| n in ns;
        n.numslots + SumSlots(ns - {n})
    }

    lemma {:induction false} SumIsOwned(ns: set<ClusterNode>)
      requires SlotInv() && ns <= nodes
      ensures SumSlots(ns) == OwnedBy(slots, ns)
      decreases |ns|
    {
      hide TestBit, Owned, OwnedBy;
      if ns == {} {
        OwnedByNobody(slots);
      } else {
        var n :| n in ns && SumSlots(ns) == n.numslots + SumSlots(ns - {n});
        SumIsOwned(ns - {n});
        OwnedByOneMore(slots, ns, n);
      }
    }

    // Every counter is the number of bits set, and together they are the assigned slots.
    lemma CountersAgree()
      requires SlotInv()
      ensures forall n :: n in nodes ==> n.numslots == PopCount(n.slots, SLOTS)
      ensures SumSlots(nodes) == Assigned(slots)
    {
      hide TestBit, Owned, OwnedBy, PopCount;
      forall n | n in nodes ensures n.numslots == PopCount(n.slots, SLOTS) {
        PopCountIsOwned(slots, n.slots, n, SLOTS);
        assert slots[..SLOTS] == slots;
      }
      SumIsOwned(nodes);
      OwnedByAll(slots, nodes);
    }
  }

  lemma {:induction false} OwnedSame(t: Table, u: Table, n: ClusterNode)
    requires |t| == |u| && forall j :: 0 <= j < |t| ==> (t[j] == n) == (u[j] == n)
    ensures Owned(t, n) == Owned(u, n)
    decreases |t|
  {
    if t != [] {
      var k := |t| - 1;
      assert forall j :: 0 <= j < k ==> (t[..k][j] == n) == (u[..k][j] == n);
      OwnedSame(t[..k], u[..k], n);
    }
  }
}
