// Claims to a slot, delivered to a node in any order and any number of times.
module ClusterClaims {

  type Id = nat    // the name of a node

  // Each master publishes one fixed configuration epoch.
  type Epochs = Id -> nat

  // A header from a master, and whether its bitmap has the bit of the slot.
  datatype Header = Header(sender: Id, claims: bool)

  datatype Owner = Unassigned | By(node: Id)

  // The node's view of one slot: who serves it, the configuration epochs it knows,
  // and whether the slot is being imported.
  datatype Slot = Slot(owner: Owner, known: map<Id, nat>, importing: bool)

  function KnownEpoch(s: Slot, m: Id): nat { if m in s.known then s.known[m] else 0 }

  // The header raises the sender's known epoch.
  function See(s: Slot, m: Id, epoch: nat): Slot {
    if epoch > KnownEpoch(s, m) then s.(known := s.known[m := epoch]) else s
  }

  // The claim takes the slot if it is unassigned or served under a smaller epoch,
  // unless it is being imported.
  function Claim(s: Slot, m: Id, epoch: nat): Slot {
    if s.owner == By(m) || s.importing then s
    else if s.owner == Unassigned || KnownEpoch(s, s.owner.node) < epoch then s.(owner := By(m))
    else s
  }

  function Deliver(s: Slot, h: Header, epochs: Epochs): Slot {
    var seen := See(s, h.sender, epochs(h.sender));
    if h.claims then Claim(seen, h.sender, epochs(h.sender)) else seen
  }

  function DeliverAll(s: Slot, hs: seq<Header>, epochs: Epochs): Slot {
    if hs == [] then s else Deliver(DeliverAll(s, hs[..|hs| - 1], epochs), hs[|hs| - 1], epochs)
  }

  predicate Claimant(m: Id, hs: seq<Header>) { Header(m, true) in hs }

  // m claims with the greatest epoch of all claimants.
  ghost predicate Greatest(m: Id, hs: seq<Header>, epochs: Epochs) {
    Claimant(m, hs) && forall k :: Claimant(k, hs) ==> epochs(k) <= epochs(m)
  }

  // No two claimants share the greatest epoch.
  ghost predicate UniqueGreatest(hs: seq<Header>, epochs: Epochs) {
    forall k, l :: Greatest(k, hs, epochs) && Greatest(l, hs, epochs) ==> k == l
  }

  ghost predicate SameClaimants(hs: seq<Header>, gs: seq<Header>) {
    forall m :: Claimant(m, hs) <==> Claimant(m, gs)
  }

  // A node that knows nothing newer than what the masters publish.
  predicate Behind(s: Slot, epochs: Epochs) { forall k :: k in s.known ==> s.known[k] <= epochs(k) }

  // Whoever serves the slot has been heard of.
  predicate OwnerSeen(s: Slot, epochs: Epochs) {
    s.owner.By? ==> KnownEpoch(s, s.owner.node) == epochs(s.owner.node)
  }

  lemma DeliverOne(s: Slot, h: Header, epochs: Epochs)
    requires !s.importing && Behind(s, epochs) && OwnerSeen(s, epochs)
    ensures var t := Deliver(s, h, epochs);
      && !t.importing && Behind(t, epochs) && OwnerSeen(t, epochs)
      && t.owner ==
        if !h.claims || (s.owner.By? && epochs(s.owner.node) >= epochs(h.sender)) then s.owner else By(h.sender)
  {}

  // The slot stays unassigned until somebody claims it, and ends with the claimant
  // of the greatest epoch.
  lemma {:induction false} GreatestOwns(s: Slot, hs: seq<Header>, epochs: Epochs)
    requires s.owner == Unassigned && !s.importing && Behind(s, epochs)
    ensures var t := DeliverAll(s, hs, epochs);
      && !t.importing && Behind(t, epochs) && OwnerSeen(t, epochs)
      && (t.owner.By? <==> exists m :: Claimant(m, hs))
      && (t.owner.By? ==> Greatest(t.owner.node, hs, epochs))
    decreases |hs|
  {
    if hs != [] {
      hide Deliver, Behind, OwnerSeen;
      var n := |hs| - 1;
      GreatestOwns(s, hs[..n], epochs);
      DeliverOne(DeliverAll(s, hs[..n], epochs), hs[n], epochs);
      assert forall m :: Claimant(m, hs) <==> Claimant(m, hs[..n]) || hs[n] == Header(m, true);
      if hs[n].claims { assert Claimant(hs[n].sender, hs); }
    }
  }

  // A node that starts without an owner for the slot.
  predicate Start(s: Slot, epochs: Epochs) { s.owner == Unassigned && !s.importing && Behind(s, epochs) }

  // Every order of delivery, to any two nodes, gives the same owner.
  ghost predicate Converges(hs: seq<Header>, epochs: Epochs) {
    forall s, t, gs, ks :: Start(s, epochs) && Start(t, epochs) && SameClaimants(gs, hs) && SameClaimants(ks, hs) ==>
      DeliverAll(s, gs, epochs).owner == DeliverAll(t, ks, epochs).owner
  }

  lemma SameGreatest(hs: seq<Header>, gs: seq<Header>, m: Id, epochs: Epochs)
    requires SameClaimants(gs, hs)
    ensures Greatest(m, hs, epochs) == Greatest(m, gs, epochs)
  {}

  // Once the slot is served under the greatest epoch, it stays where it is.
  lemma {:induction false} GreatestStays(s: Slot, hs: seq<Header>, a: Id, epochs: Epochs)
    requires s.owner == By(a) && !s.importing && Behind(s, epochs) && OwnerSeen(s, epochs)
    requires forall k :: Claimant(k, hs) ==> epochs(k) <= epochs(a)
    ensures var t := DeliverAll(s, hs, epochs);
      t.owner == By(a) && !t.importing && Behind(t, epochs) && OwnerSeen(t, epochs)
    decreases |hs|
  {
    if hs != [] {
      hide Deliver, Behind, OwnerSeen;
      var n := |hs| - 1;
      assert forall k :: Claimant(k, hs[..n]) ==> Claimant(k, hs);
      GreatestStays(s, hs[..n], a, epochs);
      DeliverOne(DeliverAll(s, hs[..n], epochs), hs[n], epochs);
      if hs[n].claims { assert Claimant(hs[n].sender, hs); }
    }
  }

  lemma {:induction false} DeliverFirst(s: Slot, h: Header, hs: seq<Header>, epochs: Epochs)
    ensures DeliverAll(s, [h] + hs, epochs) == DeliverAll(Deliver(s, h, epochs), hs, epochs)
    decreases |hs|
  {
    hide Deliver;
    if hs == [] {
      assert [h] + hs == [h] && [h][..0] == [];
      assert DeliverAll(s, [h][..0], epochs) == s;
    } else {
      var n := |hs| - 1;
      assert ([h] + hs)[..n + 1] == [h] + hs[..n];
      DeliverFirst(s, h, hs[..n], epochs);
    }
  }

  // Whoever claims first among those with the greatest epoch ends up serving the slot.
  lemma FirstGreatestOwns(hs: seq<Header>, a: Id, epochs: Epochs)
    requires Greatest(a, hs, epochs)
    ensures SameClaimants([Header(a, true)] + hs, hs)
    ensures DeliverAll(Slot(Unassigned, map[], false), [Header(a, true)] + hs, epochs).owner == By(a)
  {
    hide Behind, OwnerSeen, Deliver;
    var s := Slot(Unassigned, map[], false);
    NothingKnown(s, epochs);
    DeliverOne(s, Header(a, true), epochs);
    DeliverFirst(s, Header(a, true), hs, epochs);
    GreatestStays(Deliver(s, Header(a, true), epochs), hs, a, epochs);
  }

  lemma NothingKnown(s: Slot, epochs: Epochs)
    requires s == Slot(Unassigned, map[], false)
    ensures Start(s, epochs) && Behind(s, epochs) && OwnerSeen(s, epochs)
  {}

  // The order of delivery is irrelevant exactly when no two claimants share the greatest epoch.
  lemma ConvergesExactly(hs: seq<Header>, epochs: Epochs)
    ensures Converges(hs, epochs) <==> UniqueGreatest(hs, epochs)
  {
    hide DeliverAll, OwnerSeen, SameClaimants, Greatest, Claimant, Behind;
    if UniqueGreatest(hs, epochs) {
      forall s, t, gs, ks | Start(s, epochs) && Start(t, epochs) && SameClaimants(gs, hs) && SameClaimants(ks, hs)
        ensures DeliverAll(s, gs, epochs).owner == DeliverAll(t, ks, epochs).owner
      {
        OrderIrrelevant(s, t, gs, ks, hs, epochs);
      }
    }
    if Converges(hs, epochs) {
      var s := Slot(Unassigned, map[], false);
      NothingKnown(s, epochs);
      forall k, l | Greatest(k, hs, epochs) && Greatest(l, hs, epochs) ensures k == l {
        FirstGreatestOwns(hs, k, epochs);
        FirstGreatestOwns(hs, l, epochs);
      }
    }
  }

  lemma OrderIrrelevant(s: Slot, t: Slot, gs: seq<Header>, ks: seq<Header>, hs: seq<Header>, epochs: Epochs)
    requires Start(s, epochs) && Start(t, epochs) && UniqueGreatest(hs, epochs)
    requires SameClaimants(gs, hs) && SameClaimants(ks, hs)
    ensures DeliverAll(s, gs, epochs).owner == DeliverAll(t, ks, epochs).owner
  {
    hide DeliverAll, Behind, OwnerSeen, Greatest;
    GreatestOwns(s, gs, epochs);
    GreatestOwns(t, ks, epochs);
    var x, y := DeliverAll(s, gs, epochs).owner, DeliverAll(t, ks, epochs).owner;
    if x.By? { SameGreatest(hs, gs, x.node, epochs); }
    if y.By? { SameGreatest(hs, ks, y.node, epochs); }
  }

  lemma {:induction false} StaysBehind(s: Slot, hs: seq<Header>, epochs: Epochs)
    requires Behind(s, epochs)
    ensures Behind(DeliverAll(s, hs, epochs), epochs)
    decreases |hs|
  {
    if hs != [] { StaysBehind(s, hs[..|hs| - 1], epochs); }
  }

  // A slot that has an owner keeps it, or passes to a claim of a strictly greater epoch.
  lemma {:induction false} OwnerOnlyRises(s: Slot, hs: seq<Header>, epochs: Epochs)
    requires s.owner.By? && Behind(s, epochs)
    ensures var t := DeliverAll(s, hs, epochs);
      t.owner.By? && (t.owner == s.owner || KnownEpoch(s, s.owner.node) < epochs(t.owner.node))
      && KnownEpoch(s, s.owner.node) <= KnownEpoch(t, t.owner.node)
    decreases |hs|
  {
    if hs != [] {
      var n := |hs| - 1;
      OwnerOnlyRises(s, hs[..n], epochs);
      StaysBehind(s, hs[..n], epochs);
      OwnerRises(DeliverAll(s, hs[..n], epochs), hs[n], epochs);
    }
  }

  lemma OwnerRises(s: Slot, h: Header, epochs: Epochs)
    requires s.owner.By? && Behind(s, epochs)
    ensures var t := Deliver(s, h, epochs);
      t.owner.By? && (t.owner == s.owner || KnownEpoch(s, s.owner.node) < epochs(t.owner.node))
      && KnownEpoch(s, s.owner.node) <= KnownEpoch(t, t.owner.node)
  {}

  // While a slot is being imported no claim moves it.
  lemma {:induction false} ImportingStays(s: Slot, hs: seq<Header>, epochs: Epochs)
    requires s.importing
    ensures DeliverAll(s, hs, epochs).owner == s.owner && DeliverAll(s, hs, epochs).importing
    decreases |hs|
  {
    if hs != [] { ImportingStays(s, hs[..|hs| - 1], epochs); }
  }
}
