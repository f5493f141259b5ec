// Failover elections over the whole cluster: masters vote, slaves count votes,
// messages are delayed and reordered at will.
module ClusterElection {

  type Id(==, !new)

  // ---- one node's part in elections ----

  datatype Elector = Elector(
    currentEpoch: nat,
    lastVoteEpoch: nat,
    authEpoch: nat,       // failover_auth_epoch
    authCount: nat,       // failover_auth_count
    authSent: bool)       // failover_auth_sent

  // A message with a greater epoch raises the current epoch.
  function See(e: Elector, epoch: nat): Elector {
    if epoch > e.currentEpoch then e.(currentEpoch := epoch) else e
  }

  // The epoch part of the decision to vote.
  predicate EpochAllows(e: Elector, requestEpoch: nat) {
    requestEpoch >= e.currentEpoch && e.lastVoteEpoch != e.currentEpoch
  }

  function Voted(e: Elector): Elector { e.(lastVoteEpoch := e.currentEpoch) }

  // A new attempt is scheduled: the count is cleared, the epoch is not yet taken.
  function Schedule(e: Elector): Elector { e.(authCount := 0, authSent := false) }

  // The votes are asked for, under a fresh epoch.
  function Request(e: Elector): Elector {
    e.(currentEpoch := e.currentEpoch + 1, authEpoch := e.currentEpoch + 1, authSent := true)
  }

  // A vote from a master serving slots, or not, arrives.
  function Count(e: Elector, senderEpoch: nat, isVoter: bool): Elector {
    if isVoter && senderEpoch >= e.authEpoch then e.(authCount := e.authCount + 1) else e
  }

  predicate Quorum(e: Elector, size: nat) { e.authSent && e.authCount >= size / 2 + 1 }

  // ---- the cluster ----

  datatype Ask = Ask(candidate: Id, epoch: nat)
  datatype Ack = Ack(voter: Id, candidate: Id, epoch: nat)

  // Masters serving slots when epoch e is current, as every node sees them.
  type Voters = nat -> set<Id>

  // What the proof remembers about a candidate: the voters counted for its
  // current attempt, and how many votes of earlier attempts its count includes.
  datatype Attempt = Attempt(counted: set<Id>, stale: nat)

  datatype World = World(
    nodes: map<Id, Elector>,
    asks: set<Ask>,                      // requests sent so far, deliverable any number of times
    acks: set<Ack>,                      // votes in flight
    votes: map<(Id, nat), Id>,           // ghost: whom a voter chose at an epoch
    attempts: map<Id, Attempt>,          // ghost
    wins: set<(Id, nat, nat)>)           // ghost: candidate, epoch, stale votes counted

  datatype Event =
    | Raise(n: Id, epoch: nat)           // gossip, a bump or a collision moved its epoch on
    | Schedules(c: Id)
    | Requests(c: Id)
    | Votes(v: Id, ask: Ask)             // the request reaches v, which grants its vote
    | Delivers(ack: Ack)
    | Wins(c: Id)

  ghost predicate Enabled(w: World, e: Event, voters: Voters) {
    match e
    case Raise(n, epoch) => n in w.nodes
    case Schedules(c) => c in w.nodes
    case Requests(c) => c in w.nodes && !w.nodes[c].authSent
    case Votes(v, ask) =>
      && v in w.nodes && ask in w.asks
      && EpochAllows(See(w.nodes[v], ask.epoch), ask.epoch)
      && v in voters(ask.epoch)
    case Delivers(ack) => ack in w.acks && ack.candidate in w.nodes
    case Wins(c) => c in w.nodes && Quorum(w.nodes[c], |voters(w.nodes[c].authEpoch)|)
  }

  // A vote counts for the attempt it answers, unless the next attempt has been scheduled already.
  predicate Fresh(e: Elector, ack: Ack) { e.authSent && ack.epoch == e.authEpoch }

  function Step(w: World, e: Event, voters: Voters): World {
    match e
    case Raise(n, epoch) =>
      if n in w.nodes then w.(nodes := w.nodes[n := See(w.nodes[n], epoch)]) else w
    case Schedules(c) =>
      if c in w.nodes
      then w.(nodes := w.nodes[c := Schedule(w.nodes[c])], attempts := w.attempts[c := Attempt({}, 0)]) else w
    case Requests(c) =>
      if c in w.nodes && c in w.attempts
      then
        var e := Request(w.nodes[c]);
        w.(nodes := w.nodes[c := e], asks := w.asks + {Ask(c, e.authEpoch)},
           attempts := w.attempts[c := Attempt({}, w.attempts[c].stale)])
      else w
    case Votes(v, ask) =>
      if v in w.nodes
      then
        var e := Voted(See(w.nodes[v], ask.epoch));
        w.(nodes := w.nodes[v := e], acks := w.acks + {Ack(v, ask.candidate, e.currentEpoch)},
           votes := w.votes[(v, e.currentEpoch) := ask.candidate])
      else w
    case Delivers(ack) =>
      if ack.candidate in w.nodes && ack.candidate in w.attempts
      then
        var c, a := w.nodes[ack.candidate], w.attempts[ack.candidate];
        var isVoter := ack.voter in voters(c.authEpoch);
        var counts := isVoter && ack.epoch >= c.authEpoch;
        w.(nodes := w.nodes[ack.candidate := Count(See(c, ack.epoch), ack.epoch, isVoter)],
           acks := w.acks - {ack},
           attempts := w.attempts[ack.candidate :=
             if !counts then a
             else if Fresh(c, ack) then a.(counted := a.counted + {ack.voter})
             else a.(stale := a.stale + 1)])
      else w
    case Wins(c) =>
      if c in w.nodes && c in w.attempts
      then w.(wins := w.wins + {(c, w.nodes[c].authEpoch, w.attempts[c].stale)}) else w
  }

  // ---- the invariant ----

  predicate NodesInv(w: World) {
    && w.attempts.Keys == w.nodes.Keys
    && (forall n :: n in w.nodes ==> w.nodes[n].lastVoteEpoch <= w.nodes[n].currentEpoch)
    && (forall n :: n in w.nodes ==> w.nodes[n].authEpoch <= w.nodes[n].currentEpoch)
  }

  predicate VotesInv(w: World) {
    && (forall k :: k in w.votes ==> k.0 in w.nodes && k.1 <= w.nodes[k.0].lastVoteEpoch)
    && (forall a :: a in w.asks ==> a.candidate in w.nodes && a.epoch <= w.nodes[a.candidate].authEpoch)
    && (forall k :: k in w.votes ==> Ask(w.votes[k], k.1) in w.asks)
    && (forall a :: a in w.acks ==> (a.voter, a.epoch) in w.votes && w.votes[(a.voter, a.epoch)] == a.candidate)
  }

  // c's count is the voters of its current attempt, plus the stale votes.
  predicate Counted(w: World, c: Id, voters: Voters)
    requires c in w.nodes && c in w.attempts
  {
    && w.nodes[c].authCount == |w.attempts[c].counted| + w.attempts[c].stale
    && (!w.nodes[c].authSent ==> w.attempts[c].counted == {})
    && (forall v :: v in w.attempts[c].counted ==>
      && v in voters(w.nodes[c].authEpoch)
      && (v, w.nodes[c].authEpoch) in w.votes && w.votes[(v, w.nodes[c].authEpoch)] == c
      && Ack(v, c, w.nodes[c].authEpoch) !in w.acks)
  }

  predicate AttemptInv(w: World, voters: Voters) {
    forall c :: c in w.nodes && c in w.attempts ==> Counted(w, c, voters)
  }

  // A majority of the voters of an epoch chose c.
  ghost predicate Majority(w: World, c: Id, epoch: nat, voters: Voters) {
    exists s: set<Id> :: s <= voters(epoch) && |s| >= |voters(epoch)| / 2 + 1 && Chose(w, s, c, epoch)
  }

  predicate Chose(w: World, s: set<Id>, c: Id, epoch: nat) {
    forall v :: v in s ==> (v, epoch) in w.votes && w.votes[(v, epoch)] == c
  }

  ghost predicate WinsInv(w: World, voters: Voters) {
    forall x :: x in w.wins && x.2 == 0 ==> Majority(w, x.0, x.1, voters)
  }

  ghost predicate Inv(w: World, voters: Voters) {
    NodesInv(w) && VotesInv(w) && AttemptInv(w, voters) && WinsInv(w, voters)
  }

  // ---- votes are given once and never change ----

  predicate VotesGrow(w: World, v: World) {
    forall k :: k in w.votes ==> k in v.votes && v.votes[k] == w.votes[k]
  }

  lemma MajorityKept(w: World, v: World, c: Id, epoch: nat, voters: Voters)
    requires VotesGrow(w, v) && Majority(w, c, epoch, voters)
    ensures Majority(v, c, epoch, voters)
  {
    var s: set<Id> :| s <= voters(epoch) && |s| >= |voters(epoch)| / 2 + 1 && Chose(w, s, c, epoch);
    assert Chose(v, s, c, epoch);
  }

  lemma WinsKept(w: World, v: World, voters: Voters)
    requires VotesGrow(w, v) && WinsInv(w, voters) && v.wins == w.wins
    ensures WinsInv(v, voters)
  {
    hide Majority, VotesGrow;
    forall x | x in v.wins && x.2 == 0 ensures Majority(v, x.0, x.1, voters) {
      MajorityKept(w, v, x.0, x.1, voters);
    }
  }

  lemma FirstVote(w: World, v: Id, ask: Ask, voters: Voters)
    requires NodesInv(w) && VotesInv(w) && Enabled(w, Votes(v, ask), voters)
    ensures See(w.nodes[v], ask.epoch).currentEpoch == ask.epoch && (v, ask.epoch) !in w.votes
    ensures VotesGrow(w, Step(w, Votes(v, ask), voters))
  {}

  lemma VoteVotes(w: World, v: Id, ask: Ask, voters: Voters)
    requires NodesInv(w) && VotesInv(w) && Enabled(w, Votes(v, ask), voters)
    ensures NodesInv(Step(w, Votes(v, ask), voters)) && VotesInv(Step(w, Votes(v, ask), voters))
  {
    FirstVote(w, v, ask, voters);
  }

  lemma VoteAttempts(w: World, v: Id, ask: Ask, voters: Voters)
    requires NodesInv(w) && VotesInv(w) && AttemptInv(w, voters) && Enabled(w, Votes(v, ask), voters)
    ensures AttemptInv(Step(w, Votes(v, ask), voters), voters)
  {
    FirstVote(w, v, ask, voters);
    hide VotesInv, NodesInv;
    var x := Step(w, Votes(v, ask), voters);
    forall c | c in x.nodes && c in x.attempts ensures Counted(x, c, voters) {
      assert Counted(w, c, voters);
    }
  }

  lemma VoteKeeps(w: World, v: Id, ask: Ask, voters: Voters)
    requires Inv(w, voters) && Enabled(w, Votes(v, ask), voters)
    ensures Inv(Step(w, Votes(v, ask), voters), voters)
  {
    hide WinsInv, NodesInv, VotesInv, AttemptInv, VotesGrow, Enabled;
    FirstVote(w, v, ask, voters);
    VoteVotes(w, v, ask, voters);
    VoteAttempts(w, v, ask, voters);
    WinsKept(w, Step(w, Votes(v, ask), voters), voters);
  }

  lemma DeliverVotes(w: World, ack: Ack, voters: Voters)
    requires NodesInv(w) && VotesInv(w) && Enabled(w, Delivers(ack), voters)
    ensures NodesInv(Step(w, Delivers(ack), voters)) && VotesInv(Step(w, Delivers(ack), voters))
    ensures ack.epoch <= w.nodes[ack.candidate].authEpoch && VotesGrow(w, Step(w, Delivers(ack), voters))
  {
    hide Fresh;
    assert Ask(ack.candidate, ack.epoch) in w.asks;
  }

  lemma DeliverAttempts(w: World, ack: Ack, voters: Voters)
    requires NodesInv(w) && VotesInv(w) && AttemptInv(w, voters) && Enabled(w, Delivers(ack), voters)
    ensures AttemptInv(Step(w, Delivers(ack), voters), voters)
  {
    DeliverVotes(w, ack, voters);
    assert (ack.voter, ack.epoch) in w.votes && w.votes[(ack.voter, ack.epoch)] == ack.candidate;
    hide VotesInv, NodesInv;
    var x := Step(w, Delivers(ack), voters);
    assert Counted(w, ack.candidate, voters);
    assert Fresh(w.nodes[ack.candidate], ack) ==> ack.voter !in w.attempts[ack.candidate].counted;
    forall c | c in x.nodes && c in x.attempts ensures Counted(x, c, voters) {
      assert Counted(w, c, voters);
    }
  }

  lemma DeliverKeeps(w: World, ack: Ack, voters: Voters)
    requires Inv(w, voters) && Enabled(w, Delivers(ack), voters)
    ensures Inv(Step(w, Delivers(ack), voters), voters)
  {
    hide WinsInv, NodesInv, VotesInv, AttemptInv, VotesGrow, Enabled, Fresh;
    DeliverVotes(w, ack, voters);
    DeliverAttempts(w, ack, voters);
    WinsKept(w, Step(w, Delivers(ack), voters), voters);
  }

  // A count that includes no stale vote and reaches the quorum is a majority.
  lemma QuorumIsMajority(w: World, c: Id, voters: Voters)
    requires Inv(w, voters) && c in w.nodes && Quorum(w.nodes[c], |voters(w.nodes[c].authEpoch)|)
    requires w.attempts[c].stale == 0
    ensures Majority(w, c, w.nodes[c].authEpoch, voters)
  {
    hide WinsInv;
    assert Chose(w, w.attempts[c].counted, c, w.nodes[c].authEpoch);
  }

  lemma WinKeeps(w: World, c: Id, voters: Voters)
    requires Inv(w, voters) && Enabled(w, Wins(c), voters)
    ensures Inv(Step(w, Wins(c), voters), voters)
  {
    hide Majority;
    var x := Step(w, Wins(c), voters);
    if w.attempts[c].stale == 0 { QuorumIsMajority(w, c, voters); }
    forall y | y in x.wins && y.2 == 0 ensures Majority(x, y.0, y.1, voters) {
      MajorityKept(w, x, y.0, y.1, voters);
    }
  }

  lemma OwnVotes(w: World, e: Event, voters: Voters)
    requires NodesInv(w) && VotesInv(w) && Enabled(w, e, voters) && (e.Raise? || e.Schedules? || e.Requests?)
    ensures NodesInv(Step(w, e, voters)) && VotesInv(Step(w, e, voters)) && VotesGrow(w, Step(w, e, voters))
  {}

  lemma OwnAttempts(w: World, e: Event, voters: Voters)
    requires NodesInv(w) && AttemptInv(w, voters) && Enabled(w, e, voters) && (e.Raise? || e.Schedules? || e.Requests?)
    ensures AttemptInv(Step(w, e, voters), voters)
  {
    var x := Step(w, e, voters);
    forall c | c in x.nodes && c in x.attempts ensures Counted(x, c, voters) {
      assert Counted(w, c, voters);
    }
  }

  lemma OwnKeeps(w: World, e: Event, voters: Voters)
    requires Inv(w, voters) && Enabled(w, e, voters) && (e.Raise? || e.Schedules? || e.Requests?)
    ensures Inv(Step(w, e, voters), voters)
  {
    hide WinsInv, NodesInv, VotesInv, AttemptInv, VotesGrow, Enabled;
    OwnVotes(w, e, voters);
    OwnAttempts(w, e, voters);
    WinsKept(w, Step(w, e, voters), voters);
  }

  lemma StepKeeps(w: World, e: Event, voters: Voters)
    requires Inv(w, voters) && Enabled(w, e, voters)
    ensures Inv(Step(w, e, voters), voters)
  {
    hide Inv, Step;
    match e
    case Votes(v, ask) => VoteKeeps(w, v, ask, voters);
    case Delivers(ack) => DeliverKeeps(w, ack, voters);
    case Wins(c) => WinKeeps(w, c, voters);
    case _ => OwnKeeps(w, e, voters);
  }

  // ---- two majorities of one set share a voter ----

  lemma Intersect(s: set<Id>, t: set<Id>, all: set<Id>)
    requires s <= all && t <= all && |s| >= |all| / 2 + 1 && |t| >= |all| / 2 + 1
    ensures exists v :: v in s && v in t
  {
    if s * t == {} {
      Subset(s + t, all);
    } else {
      var v :| v in s * t;
    }
  }

  lemma {:induction false} Subset(s: set<Id>, all: set<Id>)
    requires s <= all
    ensures |s| <= |all|
    decreases |s|
  {
    if s != {} {
      var x :| x in s;
      Subset(s - {x}, all - {x});
    }
  }

  // Two elections won at the same epoch, with no stale vote in either count, have one winner.
  lemma OneWinner(w: World, c: Id, d: Id, epoch: nat, voters: Voters)
    requires Inv(w, voters) && (c, epoch, 0) in w.wins && (d, epoch, 0) in w.wins
    ensures c == d
  {
    hide NodesInv, VotesInv, AttemptInv;
    assert Majority(w, c, epoch, voters) && Majority(w, d, epoch, voters);
    var s: set<Id> :| s <= voters(epoch) && |s| >= |voters(epoch)| / 2 + 1 && Chose(w, s, c, epoch);
    var t: set<Id> :| t <= voters(epoch) && |t| >= |voters(epoch)| / 2 + 1 && Chose(w, t, d, epoch);
    Intersect(s, t, voters(epoch));
  }

  // ---- whole runs ----

  function After(w: World, es: seq<Event>, voters: Voters): World {
    if es == [] then w else Step(After(w, es[..|es| - 1], voters), es[|es| - 1], voters)
  }

  ghost predicate Possible(w: World, es: seq<Event>, voters: Voters) {
    es == [] || (Possible(w, es[..|es| - 1], voters) && Enabled(After(w, es[..|es| - 1], voters), es[|es| - 1], voters))
  }

  // No vote is delivered between the clearing of a count and the request that takes the next epoch.
  ghost predicate NoStaleVote(w: World, es: seq<Event>, voters: Voters) {
    es == []
    || (NoStaleVote(w, es[..|es| - 1], voters)
      && PromptVote(After(w, es[..|es| - 1], voters), es[|es| - 1], voters))
  }

  predicate PromptVote(w: World, e: Event, voters: Voters) {
    e.Delivers? && e.ack.candidate in w.nodes ==>
      var c := w.nodes[e.ack.candidate];
      c.authSent || e.ack.epoch < c.authEpoch || e.ack.voter !in voters(c.authEpoch)
  }

  // Nobody has voted or asked for votes yet.
  predicate Initial(w: World) {
    && w.asks == {} && w.acks == {} && w.votes == map[] && w.wins == {} && w.attempts.Keys == w.nodes.Keys
    && (forall n :: n in w.nodes ==>
      && w.nodes[n].lastVoteEpoch <= w.nodes[n].currentEpoch && w.nodes[n].authEpoch <= w.nodes[n].currentEpoch
      && w.nodes[n].authCount == 0 && !w.nodes[n].authSent && w.attempts[n] == Attempt({}, 0))
  }

  predicate Unspoilt(w: World) {
    && (forall c :: c in w.attempts ==> w.attempts[c].stale == 0)
    && (forall x :: x in w.wins ==> x.2 == 0)
  }

  // The count of c is the number of different voters that chose c at its epoch.
  ghost predicate CountIsVotes(w: World, c: Id, voters: Voters)
    requires c in w.nodes
  {
    exists s: set<Id> ::
      s <= voters(w.nodes[c].authEpoch) && |s| == w.nodes[c].authCount && Chose(w, s, c, w.nodes[c].authEpoch)
  }

  // So it is, or will be once c has asked for votes: the count goes with the epoch that is asked for.
  ghost predicate Honest(w: World, c: Id, voters: Voters)
    requires c in w.nodes && c in w.attempts
  {
    if w.nodes[c].authSent then CountIsVotes(w, c, voters) else CountIsVotes(Step(w, Requests(c), voters), c, voters)
  }

  ghost predicate AllHonest(w: World, voters: Voters) {
    forall c :: c in w.nodes && c in w.attempts ==> Honest(w, c, voters)
  }

  ghost predicate HonestRun(w: World, es: seq<Event>, voters: Voters) {
    AllHonest(After(w, es, voters), voters) && (es == [] || HonestRun(w, es[..|es| - 1], voters))
  }

  lemma UnspoiltIsHonest(w: World, voters: Voters)
    requires Inv(w, voters) && Unspoilt(w)
    ensures AllHonest(w, voters)
  {
    hide WinsInv, NodesInv, VotesInv;
    forall c | c in w.nodes && c in w.attempts ensures Honest(w, c, voters) {
      assert Counted(w, c, voters);
      if w.nodes[c].authSent {
        assert Chose(w, w.attempts[c].counted, c, w.nodes[c].authEpoch);
      } else {
        var v := Step(w, Requests(c), voters);
        assert Chose(v, {}, c, v.nodes[c].authEpoch);
      }
    }
  }

  // Nobody has chosen c at an epoch it has not taken yet.
  lemma NoEarlyVote(w: World, c: Id, epoch: nat)
    requires VotesInv(w) && c in w.nodes && epoch > w.nodes[c].authEpoch
    ensures forall v :: (v, epoch) in w.votes ==> w.votes[(v, epoch)] != c
  {
    forall v | (v, epoch) in w.votes ensures w.votes[(v, epoch)] != c {
      assert Ask(w.votes[(v, epoch)], epoch) in w.asks;
    }
  }

  // So a count that is not zero when the epoch is taken is no count of votes.
  lemma EarlyCountIsDishonest(w: World, c: Id, voters: Voters)
    requires Inv(w, voters) && c in w.nodes && !w.nodes[c].authSent && w.nodes[c].authCount > 0
    ensures c in w.attempts && !Honest(w, c, voters)
  {
    hide WinsInv, AttemptInv, VotesInv;
    var v := Step(w, Requests(c), voters);
    var epoch := v.nodes[c].authEpoch;
    NoEarlyVote(w, c, epoch);
    forall s: set<Id> | s <= voters(epoch) && |s| == v.nodes[c].authCount ensures !Chose(v, s, c, epoch) {
      assert s != {};
      var x :| x in s;
    }
  }

  lemma StaleVoteIsDishonest(w: World, e: Event, voters: Voters)
    requires Inv(w, voters) && Enabled(w, e, voters) && !PromptVote(w, e, voters)
    ensures !AllHonest(Step(w, e, voters), voters)
  {
    hide Inv, Honest;
    StepKeeps(w, e, voters);
    KnownCandidate(w, voters);
    EarlyCountIsDishonest(Step(w, e, voters), e.ack.candidate, voters);
  }

  lemma KnownCandidate(w: World, voters: Voters)
    requires Inv(w, voters)
    ensures w.attempts.Keys == w.nodes.Keys
  {}

  // Every count is a count of votes, at every moment of a run, exactly when no vote of an earlier attempt is
  // delivered between the clearing of the count and the request that takes the next epoch.
  lemma {:induction false} HonestExactly(w: World, es: seq<Event>, voters: Voters)
    requires Initial(w) && Possible(w, es, voters)
    ensures NoStaleVote(w, es, voters) <==> HonestRun(w, es, voters)
    decreases |es|
  {
    hide Inv, Unspoilt, Step, Enabled, PromptVote, Initial, AllHonest;
    RunKeeps(w, es, voters);
    if NoStaleVote(w, es, voters) { UnspoiltIsHonest(After(w, es, voters), voters); }
    if es != [] {
      var before := es[..|es| - 1];
      HonestExactly(w, before, voters);
      RunKeeps(w, before, voters);
      if !PromptVote(After(w, before, voters), es[|es| - 1], voters) {
        StaleVoteIsDishonest(After(w, before, voters), es[|es| - 1], voters);
      }
    }
  }

  lemma StepUnspoilt(w: World, e: Event, voters: Voters)
    requires Inv(w, voters) && Enabled(w, e, voters) && Unspoilt(w) && PromptVote(w, e, voters)
    ensures Unspoilt(Step(w, e, voters))
  {
    hide WinsInv, AttemptInv;
    if e.Delivers? {
      assert Ask(e.ack.candidate, e.ack.epoch) in w.asks;
    }
  }

  lemma {:induction false} RunKeeps(w: World, es: seq<Event>, voters: Voters)
    requires Initial(w) && Possible(w, es, voters)
    ensures Inv(After(w, es, voters), voters)
    ensures NoStaleVote(w, es, voters) ==> Unspoilt(After(w, es, voters))
    decreases |es|
  {
    if es == [] {
    } else {
      hide Inv, Unspoilt, Step, Enabled, PromptVote, Initial;
      var n := |es| - 1;
      RunKeeps(w, es[..n], voters);
      StepKeeps(After(w, es[..n], voters), es[n], voters);
      if NoStaleVote(w, es, voters) { StepUnspoilt(After(w, es[..n], voters), es[n], voters); }
    }
  }

  // Election safety: in a run without stale votes two slaves never both win an epoch.
  lemma ElectionSafety(w: World, es: seq<Event>, voters: Voters, c: Id, d: Id, epoch: nat, m: nat, n: nat)
    requires Initial(w) && Possible(w, es, voters) && NoStaleVote(w, es, voters)
    requires (c, epoch, m) in After(w, es, voters).wins && (d, epoch, n) in After(w, es, voters).wins
    ensures c == d
  {
    hide Inv, After, Initial, Possible, NoStaleVote;
    RunKeeps(w, es, voters);
    OneWinner(After(w, es, voters), c, d, epoch, voters);
  }

  // ---- why stale votes must be excluded ----

  lemma Extend(w: World, es: seq<Event>, e: Event, voters: Voters)
    requires Possible(w, es, voters) && Enabled(After(w, es, voters), e, voters)
    ensures Possible(w, es + [e], voters) && After(w, es + [e], voters) == Step(After(w, es, voters), e, voters)
  {
    assert (es + [e])[..|es|] == es;
  }

  function NodesVoted(nodes: map<Id, Elector>, s: set<Id>, epoch: nat): map<Id, Elector> {
    map n | n in nodes :: if n in s then Voted(See(nodes[n], epoch)) else nodes[n]
  }

  function AcksOf(s: set<Id>, ask: Ask): set<Ack> { set v | v in s :: Ack(v, ask.candidate, ask.epoch) }

  function VotesOf(s: set<Id>, ask: Ask): map<(Id, nat), Id> { map v | v in s :: (v, ask.epoch) := ask.candidate }

  // Every voter of s votes as asked.
  function AllVote(w: World, s: set<Id>, ask: Ask): World {
    w.(nodes := NodesVoted(w.nodes, s, ask.epoch), acks := w.acks + AcksOf(s, ask), votes := w.votes + VotesOf(s, ask))
  }

  // The votes of s reach c: those of its current attempt, or all of them stale.
  function AllDeliver(w: World, s: set<Id>, c: Id, epoch: nat): World
    requires c in w.nodes && c in w.attempts
  {
    var e, a := w.nodes[c], w.attempts[c];
    w.(nodes := w.nodes[c := e.(authCount := e.authCount + |s|)],
       acks := w.acks - AcksOf(s, Ask(c, epoch)),
       attempts := w.attempts[c :=
         if e.authSent then a.(counted := a.counted + s) else a.(stale := a.stale + |s|)])
  }

  predicate Willing(w: World, v: Id, epoch: nat) {
    v in w.nodes && EpochAllows(See(w.nodes[v], epoch), epoch)
  }

  lemma {:induction false} VoteRound(w: World, es: seq<Event>, s: set<Id>, ask: Ask, voters: Voters)
    returns (fs: seq<Event>)
    requires Possible(w, es, voters) && ask in After(w, es, voters).asks && s <= voters(ask.epoch)
    requires forall v :: v in s ==> Willing(After(w, es, voters), v, ask.epoch)
    ensures Possible(w, fs, voters) && After(w, fs, voters) == AllVote(After(w, es, voters), s, ask)
    ensures forall e :: e in fs ==> e in es || (e.Votes? && e.v in s)
    decreases |s|
  {
    hide After, Possible;
    var u := After(w, es, voters);
    if s == {} {
      assert AllVote(u, s, ask) == u;
      fs := es;
    } else {
      var v :| v in s;
      Extend(w, es, Votes(v, ask), voters);
      OneVotes(u, s, v, ask, voters);
      fs := VoteRound(w, es + [Votes(v, ask)], s - {v}, ask, voters);
    }
  }

  lemma OneVotes(u: World, s: set<Id>, v: Id, ask: Ask, voters: Voters)
    requires v in s && Willing(u, v, ask.epoch)
    ensures AllVote(Step(u, Votes(v, ask), voters), s - {v}, ask) == AllVote(u, s, ask)
    ensures forall x :: x in s && x != v && Willing(u, x, ask.epoch) ==>
      Willing(Step(u, Votes(v, ask), voters), x, ask.epoch)
  {
    hide AllVote, Step;
    AfterOneVote(u, v, ask, voters);
    VoteAgain(u, s, v, ask);
  }

  // A willing voter, alone.
  lemma AfterOneVote(u: World, v: Id, ask: Ask, voters: Voters)
    requires Willing(u, v, ask.epoch)
    ensures Step(u, Votes(v, ask), voters) == AllVote(u, {v}, ask)
    ensures forall x :: x != v && Willing(u, x, ask.epoch) ==> Willing(Step(u, Votes(v, ask), voters), x, ask.epoch)
  {
    var x, y := Step(u, Votes(v, ask), voters), AllVote(u, {v}, ask);
    assert See(u.nodes[v], ask.epoch).currentEpoch == ask.epoch;
    hide See, EpochAllows;
    assert x.nodes == y.nodes;
    assert x.acks == y.acks;
    assert x.votes == y.votes;
  }

  lemma VoteAgain(u: World, s: set<Id>, v: Id, ask: Ask)
    requires v in s
    ensures AllVote(AllVote(u, {v}, ask), s - {v}, ask) == AllVote(u, s, ask)
  {
    hide NodesVoted, AcksOf, VotesOf;
    NodesVotedAgain(u.nodes, s, v, ask.epoch);
    VotesOfAgain(s, v, ask);
    assert u.votes + VotesOf({v}, ask) + VotesOf(s - {v}, ask) == u.votes + (VotesOf({v}, ask) + VotesOf(s - {v}, ask));
    assert u.acks + AcksOf({v}, ask) + AcksOf(s - {v}, ask) == u.acks + (AcksOf({v}, ask) + AcksOf(s - {v}, ask));
  }

  lemma NodesVotedAgain(nodes: map<Id, Elector>, s: set<Id>, v: Id, epoch: nat)
    requires v in s
    ensures NodesVoted(NodesVoted(nodes, {v}, epoch), s - {v}, epoch) == NodesVoted(nodes, s, epoch)
  {
    hide See, Voted;
  }

  lemma VotesOfAgain(s: set<Id>, v: Id, ask: Ask)
    requires v in s
    ensures VotesOf({v}, ask) + VotesOf(s - {v}, ask) == VotesOf(s, ask)
    ensures AcksOf({v}, ask) + AcksOf(s - {v}, ask) == AcksOf(s, ask)
  {
    assert s == {v} + (s - {v});
  }

  // Every vote of s is in flight to c and counts when it arrives.
  predicate Due(w: World, s: set<Id>, c: Id, epoch: nat, voters: Voters) {
    && c in w.nodes && c in w.attempts && s <= voters(w.nodes[c].authEpoch)
    && epoch == w.nodes[c].authEpoch <= w.nodes[c].currentEpoch
    && forall v :: v in s ==> Ack(v, c, epoch) in w.acks
  }

  lemma {:induction false} DeliverRound(w: World, es: seq<Event>, s: set<Id>, c: Id, epoch: nat, voters: Voters)
    returns (fs: seq<Event>)
    requires Possible(w, es, voters) && Due(After(w, es, voters), s, c, epoch, voters)
    ensures Possible(w, fs, voters) && After(w, fs, voters) == AllDeliver(After(w, es, voters), s, c, epoch)
    ensures forall e :: e in fs ==> e in es || (e.Delivers? && e.ack.voter in s && e.ack.candidate == c)
    decreases |s|
  {
    hide After, Possible;
    var u := After(w, es, voters);
    if s == {} {
      assert AllDeliver(u, s, c, epoch) == u;
      fs := es;
    } else {
      var v :| v in s;
      Extend(w, es, Delivers(Ack(v, c, epoch)), voters);
      OneDelivered(u, s, v, c, epoch, voters);
      fs := DeliverRound(w, es + [Delivers(Ack(v, c, epoch))], s - {v}, c, epoch, voters);
    }
  }

  lemma OneDelivered(u: World, s: set<Id>, v: Id, c: Id, epoch: nat, voters: Voters)
    requires v in s && Due(u, s, c, epoch, voters)
    ensures var x := Step(u, Delivers(Ack(v, c, epoch)), voters);
      Due(x, s - {v}, c, epoch, voters) && AllDeliver(x, s - {v}, c, epoch) == AllDeliver(u, s, c, epoch)
  {
    var x := AllDeliver(Step(u, Delivers(Ack(v, c, epoch)), voters), s - {v}, c, epoch);
    var y := AllDeliver(u, s, c, epoch);
    assert (s - {v}) + {v} == s;
    assert x.nodes == y.nodes;
    assert x.acks == y.acks;
    assert x.attempts == y.attempts by { assert u.attempts[c].counted + {v} + (s - {v}) == u.attempts[c].counted + s; }
  }

  const FIRST := Elector(0, 0, 0, 0, false)

  function Always(all: set<Id>): Voters { e => all }

  // Masters and two slaves, before any election.
  function Quiet(all: set<Id>, c: Id, d: Id): World {
    World(map n | n in all + {c, d} :: FIRST, {}, {}, map[], map n | n in all + {c, d} :: Attempt({}, 0), {})
  }

  // Only these nodes take part in the events.
  predicate OnlyBy(es: seq<Event>, s: set<Id>) {
    forall e :: e in es ==>
      match e
      case Raise(n, _) => n in s
      case Schedules(c) => c in s
      case Requests(c) => c in s
      case Votes(v, ask) => v in s
      case Delivers(ack) => ack.voter in s && ack.candidate in s
      case Wins(c) => c in s
  }

  // What holds of the live voters and of d while c holds its election.
  predicate Waiting(w: World, live: set<Id>, d: Id, voted: nat) {
    && (forall v :: v in live ==> v in w.nodes && w.nodes[v] == Elector(voted, voted, 0, 0, false))
    && d in w.nodes && w.nodes[d] == FIRST && d in w.attempts && w.attempts[d] == Attempt({}, 0)
  }

  // c asks for votes, the live voters grant them, and c schedules a new attempt before they arrive.
  lemma LateVotes(all: set<Id>, live: set<Id>, c: Id, d: Id) returns (es: seq<Event>)
    requires live <= all && c !in all && d !in all && c != d
    ensures Initial(Quiet(all, c, d)) && Possible(Quiet(all, c, d), es, Always(all)) && OnlyBy(es, live + {c, d})
    ensures var w := After(Quiet(all, c, d), es, Always(all));
      && Waiting(w, live, d, 1) && Due(w, live, c, 1, Always(all))
      && w.nodes[c] == Elector(1, 0, 1, 0, false) && w.attempts[c] == Attempt({}, 0)
  {
    hide After, Possible;
    var w, voters := Quiet(all, c, d), Always(all);
    NoEvents(w, voters);
    Extend(w, [], Requests(c), voters);
    es := VoteRound(w, [] + [Requests(c)], live, Ask(c, 1), voters);
    Extend(w, es, Schedules(c), voters);
    es := es + [Schedules(c)];
  }

  // The late votes still count, and with them alone c wins the next epoch.
  lemma LateVotesWin(all: set<Id>, live: set<Id>, c: Id, d: Id) returns (es: seq<Event>)
    requires live <= all && c !in all && d !in all && c != d && |live| >= |all| / 2 + 1
    ensures Initial(Quiet(all, c, d)) && Possible(Quiet(all, c, d), es, Always(all)) && OnlyBy(es, live + {c, d})
    ensures var w := After(Quiet(all, c, d), es, Always(all)); Waiting(w, live, d, 1) && (c, 2, |live|) in w.wins
  {
    hide After, Possible;
    var w, voters := Quiet(all, c, d), Always(all);
    es := LateVotes(all, live, c, d);
    es := DeliverRound(w, es, live, c, 1, voters);
    Extend(w, es, Requests(c), voters);
    es := es + [Requests(c)];
    Extend(w, es, Wins(c), voters);
    es := es + [Wins(c)];
  }

  // Then the rival asks, and the live voters, who have not voted in that epoch, vote for it.
  lemma RivalAsks(all: set<Id>, live: set<Id>, c: Id, d: Id) returns (es: seq<Event>)
    requires live <= all && c !in all && d !in all && c != d && |live| >= |all| / 2 + 1
    ensures Initial(Quiet(all, c, d)) && Possible(Quiet(all, c, d), es, Always(all)) && OnlyBy(es, live + {c, d})
    ensures var w := After(Quiet(all, c, d), es, Always(all));
      && (c, 2, |live|) in w.wins && Due(w, live, d, 2, Always(all))
      && w.nodes[d] == Elector(2, 0, 2, 0, true) && w.attempts[d] == Attempt({}, 0)
  {
    hide After, Possible;
    var w, voters := Quiet(all, c, d), Always(all);
    es := LateVotesWin(all, live, c, d);
    Extend(w, es, Raise(d, 1), voters);
    es := es + [Raise(d, 1)];
    Extend(w, es, Requests(d), voters);
    es := VoteRound(w, es + [Requests(d)], live, Ask(d, 2), voters);
  }

  // The count is cleared when an attempt is scheduled, not when its epoch is taken: votes of the previous
  // attempt that arrive in between still count. Whatever the voters, if a majority of them is up, c wins
  // epoch 2 with such votes and no others, while d wins it with the votes of that majority.
  lemma StaleVotesElectTwo(all: set<Id>, live: set<Id>, c: Id, d: Id) returns (es: seq<Event>)
    requires live <= all && c !in all && d !in all && c != d && |live| >= |all| / 2 + 1
    ensures Initial(Quiet(all, c, d)) && Possible(Quiet(all, c, d), es, Always(all)) && OnlyBy(es, live + {c, d})
    ensures var wins := After(Quiet(all, c, d), es, Always(all)).wins; (c, 2, |live|) in wins && (d, 2, 0) in wins
  {
    hide After, Possible;
    var w, voters := Quiet(all, c, d), Always(all);
    es := RivalAsks(all, live, c, d);
    es := DeliverRound(w, es, live, d, 2, voters);
    Extend(w, es, Wins(d), voters);
    es := es + [Wins(d)];
  }

  lemma NoEvents(w: World, voters: Voters)
    ensures Possible(w, [], voters) && After(w, [], voters) == w
  {}
}
