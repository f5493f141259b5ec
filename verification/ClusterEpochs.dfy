// Configuration epochs over the whole cluster: what every node knows, and every
// message in flight carries, never exceeds the current epoch beside it.
module ClusterEpochs {

  type Id = nat    // the name of a node

  // One node: its current epoch, the configuration epochs it knows (its own among
  // them), the node whose configuration its headers carry, and the epoch of its election.
  datatype Node = Node(currentEpoch: nat, known: map<Id, nat>, speaksFor: Id, authEpoch: nat)

  // Every message has the same header; an UPDATE adds the configuration of some node.
  datatype News = Nothing | Update(about: Id, epoch: nat)
  datatype Message = Message(sender: Id, currentEpoch: nat, configEpoch: nat, news: News)

  datatype World = World(nodes: map<Id, Node>, messages: set<Message>)

  function Max(a: nat, b: nat): nat { if a >= b then a else b }

  // ---- what one node does ----

  function Learn(n: Node, m: Id, epoch: nat): Node {
    if m in n.known && epoch > n.known[m] then n.(known := n.known[m := epoch]) else n
  }

  // The header of a message from a known node, then its news
  function See(n: Node, m: Message): Node {
    if m.sender !in n.known then n
    else
      var seen := Learn(n.(currentEpoch := Max(n.currentEpoch, m.currentEpoch)), m.sender, m.configEpoch);
      if m.news.Update? then Learn(seen, m.news.about, m.news.epoch) else seen
  }

  // The greatest configuration epoch, or the current epoch if greater.
  ghost predicate IsMaxEpoch(n: Node, max: nat) {
    && max >= n.currentEpoch && (forall m :: m in n.known ==> n.known[m] <= max)
    && (max == n.currentEpoch || exists m :: m in n.known && n.known[m] == max)
  }

  // A fresh epoch for this node, taken without agreement
  function TakeEpoch(self: Id, n: Node): Node {
    n.(currentEpoch := n.currentEpoch + 1, known := n.known[self := n.currentEpoch + 1])
  }

  datatype Event =
    | Sends(n: Id)
    | SendsUpdate(n: Id, about: Id)
    | Receives(n: Id, msg: Message)
    | Meets(n: Id, m: Id)
    | Forgets(n: Id, m: Id)
    | Follows(n: Id, m: Id)              // n becomes a slave of m, or speaks for itself again
    | Takes(n: Id)                       // a bump or a collision
    | Requests(n: Id)                    // an election starts
    | Wins(n: Id)                        // and is won

  predicate Enabled(w: World, e: Event) {
    && e.n in w.nodes
    && match e
       case SendsUpdate(n, about) => about in w.nodes[n].known
       case Receives(n, msg) => msg in w.messages
       case Meets(n, m) => m !in w.nodes[n].known
       case Forgets(n, m) => m != n && m != w.nodes[n].speaksFor
       case Follows(n, m) => m in w.nodes[n].known
       case _ => true
  }

  function Step(w: World, e: Event): World
    requires WellFormed(w) && Enabled(w, e)
  {
    var n := w.nodes[e.n];
    match e
    case Sends(i) => w.(messages := w.messages + {Message(i, n.currentEpoch, n.known[n.speaksFor], Nothing)})
    case SendsUpdate(i, about) =>
      w.(messages := w.messages + {Message(i, n.currentEpoch, n.known[n.speaksFor], Update(about, n.known[about]))})
    case Receives(i, msg) => w.(nodes := w.nodes[i := See(n, msg)])
    case Meets(i, m) => w.(nodes := w.nodes[i := n.(known := n.known[m := 0])])
    case Forgets(i, m) => w.(nodes := w.nodes[i := n.(known := n.known - {m})])
    case Follows(i, m) => w.(nodes := w.nodes[i := n.(speaksFor := m)])
    case Takes(i) => w.(nodes := w.nodes[i := TakeEpoch(i, n)])
    case Requests(i) =>
      w.(nodes := w.nodes[i := n.(currentEpoch := n.currentEpoch + 1, authEpoch := n.currentEpoch + 1)])
    case Wins(i) => w.(nodes := w.nodes[i := n.(known := n.known[i := Max(n.known[i], n.authEpoch)])])
  }

  // Every node knows itself and whoever it speaks for.
  predicate WellFormed(w: World) {
    forall i :: i in w.nodes ==> i in w.nodes[i].known && w.nodes[i].speaksFor in w.nodes[i].known
  }

  predicate NodeBound(n: Node) {
    n.authEpoch <= n.currentEpoch && forall m :: m in n.known ==> n.known[m] <= n.currentEpoch
  }

  predicate Bound(w: World) {
    && (forall i :: i in w.nodes ==> NodeBound(w.nodes[i]))
    && (forall m :: m in w.messages ==>
      m.configEpoch <= m.currentEpoch && (m.news.Update? ==> m.news.epoch <= m.currentEpoch))
  }

  // Epochs only grow, for every node that is still known.
  predicate Grows(n: Node, m: Node) {
    && n.currentEpoch <= m.currentEpoch && n.authEpoch <= m.authEpoch
    && forall k :: k in n.known && k in m.known ==> n.known[k] <= m.known[k]
  }

  lemma SeeKeeps(n: Node, m: Message)
    requires NodeBound(n) && m.configEpoch <= m.currentEpoch && (m.news.Update? ==> m.news.epoch <= m.currentEpoch)
    ensures NodeBound(See(n, m)) && Grows(n, See(n, m)) && See(n, m).known.Keys == n.known.Keys
    ensures See(n, m).speaksFor == n.speaksFor
  {}

  lemma StepKeeps(w: World, e: Event)
    requires WellFormed(w) && Bound(w) && Enabled(w, e)
    ensures WellFormed(Step(w, e)) && Bound(Step(w, e))
    ensures forall i :: i in w.nodes ==> i in Step(w, e).nodes && Grows(w.nodes[i], Step(w, e).nodes[i])
  {
    hide See;
    if e.Receives? { SeeKeeps(w.nodes[e.n], e.msg); }
    var v := Step(w, e);
    assert NodeBound(w.nodes[e.n]);
    assert NodeBound(v.nodes[e.n]);
  }

  // ---- whole runs ----

  ghost predicate Reaches(w: World, es: seq<Event>, v: World)
    decreases |es|
  {
    if es == [] then v == w
    else
      exists u: World ::
        Reaches(w, es[..|es| - 1], u) && WellFormed(u) && Enabled(u, es[|es| - 1]) && v == Step(u, es[|es| - 1])
  }

  // No event makes i forget k.
  predicate Remembers(es: seq<Event>, i: Id, k: Id) { Forgets(i, k) !in es }

  // Along a run the bound is kept, no node loses a current epoch or the epoch of an election, and no
  // configuration epoch a node goes on knowing decreases.
  lemma {:induction false} RunKeeps(w: World, es: seq<Event>, v: World)
    requires WellFormed(w) && Bound(w) && Reaches(w, es, v)
    ensures WellFormed(v) && Bound(v)
    ensures forall i :: i in w.nodes ==> i in v.nodes
    ensures forall i :: i in w.nodes ==> w.nodes[i].currentEpoch <= v.nodes[i].currentEpoch
    ensures forall i :: i in w.nodes ==> w.nodes[i].authEpoch <= v.nodes[i].authEpoch
    ensures forall i, k :: i in w.nodes && k in w.nodes[i].known && Remembers(es, i, k) ==>
      k in v.nodes[i].known && w.nodes[i].known[k] <= v.nodes[i].known[k]
    decreases |es|
  {
    if es != [] {
      hide WellFormed, Bound, Step, Enabled, Remembers;
      var e := es[|es| - 1];
      var u: World :| Reaches(w, es[..|es| - 1], u) && WellFormed(u) && Enabled(u, e) && v == Step(u, e);
      RunKeeps(w, es[..|es| - 1], u);
      StepKeeps(u, e);
      RemembersBefore(es);
      forall i, k | i in w.nodes && k in w.nodes[i].known && Remembers(es, i, k)
        ensures k in v.nodes[i].known && w.nodes[i].known[k] <= v.nodes[i].known[k]
      {
        StepRemembers(u, e, i, k);
      }
    }
  }

  lemma RemembersBefore(es: seq<Event>)
    requires es != []
    ensures forall i, k :: Remembers(es, i, k) ==> Remembers(es[..|es| - 1], i, k) && es[|es| - 1] != Forgets(i, k)
  {}

  lemma StepRemembers(u: World, e: Event, i: Id, k: Id)
    requires WellFormed(u) && Enabled(u, e) && i in u.nodes && k in u.nodes[i].known && e != Forgets(i, k)
    ensures i in Step(u, e).nodes && k in Step(u, e).nodes[i].known
  {}

  // So the greatest epoch a node finds is its current epoch, and the epoch it takes for
  // itself is strictly above every configuration epoch it knows.
  lemma CurrentIsMax(w: World, es: seq<Event>, v: World, i: Id, max: nat)
    requires WellFormed(w) && Bound(w) && Reaches(w, es, v) && i in v.nodes
    ensures WellFormed(v) && Enabled(v, Takes(i))
    ensures IsMaxEpoch(v.nodes[i], max) <==> max == v.nodes[i].currentEpoch
    ensures var after := Step(v, Takes(i)).nodes[i];
      forall m :: m in v.nodes[i].known ==> v.nodes[i].known[m] < after.known[i]
  {
    hide Reaches;
    RunKeeps(w, es, v);
    assert NodeBound(v.nodes[i]);
  }
}
