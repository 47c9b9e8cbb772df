/**
 The two run conditions of agreement, each shown needed by a run under all proposal rules and tied
 to the branch of a replica's update that it guards.
 */
module AgreementLimits {
  import opened Options
  import opened Voting
  import opened VotingRuns
  import opened Agreement
  import opened LeaderSelection
  import opened ProposalRules
  import opened RuleRuns

  /** A certificate of view 0 is never locked, whatever the replica. */
  lemma ViewZeroNeverLocks(r: Replica, pc: Cert)
    requires pc.view == 0
    ensures UpdateLocksOnly(r, pc).locked == r.locked
  {
  }

  ghost predicate Sits(s: Live, i: Validator, r: Replica, me: Peer) {
    i < |s.sys.replicas| && i < |s.peers| && s.sys.replicas[i] == r && s.peers[i] == me
  }

  ghost predicate SentBelow(s: Live, view: nat) {
    forall p | p in s.sent :: p.view < view
  }

  ghost predicate NoVoteInViewZero(s: Live) {
    forall v | v in s.sys.votes :: v.view > 0
  }

  lemma NoEpochChange(net: Net, view: nat)
    requires 0 < view < net.epochLength
    ensures !net.EpochChange(view)
  {
  }

  lemma {:induction false} PowerOfNone(powers: seq<nat>, s: set<Validator>, n: nat)
    requires n <= |powers| && s == {}
    ensures Power(powers, s, n) == 0
  {
    if n > 0 { PowerOfNone(powers, s, n - 1); }
  }

  /** With no vote in view 0 nothing is certified there. */
  lemma NothingInViewZero(net: Net, s: Live)
    requires net.Valid() && NoVoteInViewZero(s)
    ensures NoViewZero(net.cfg, s.sys)
  {
    forall b: Block | b.Node? ensures !Certified(net.cfg, s.sys, Cert(0, b)) {
      assert Voters(s.sys, Cert(0, b)) == {};
      PowerOfNone(net.cfg.powers, Voters(s.sys, Cert(0, b)), |net.cfg.powers|);
    }
  }

  // ------------------------------------------------------------------ view 0

  /** Two faulty validators, which lead views 0 and 1, and two honest ones, the last with most power. */
  const HEAVY := Config([1, 1, 1, 4], {0, 1})

  const B0 := Node(Genesis, 0, 0)
  const B1 := Node(B0, 0, 1)
  const X0 := Node(Genesis, 0, 2)
  const X1 := Node(X0, 3, 3)

  lemma HeavyIsValid()
    ensures HEAVY.Valid() && Total(HEAVY.powers) == 7 && IsQuorum(HEAVY.powers, {3, 0})
  {
    var p := HEAVY.powers;
    assert TotalOf(p, 1) == 1 && TotalOf(p, 2) == 2 && TotalOf(p, 3) == 3 && TotalOf(p, 4) == 7;
    assert Power(p, {0, 1}, 1) == 1 && Power(p, {0, 1}, 2) == 2 && Power(p, {0, 1}, 3) == 2 && Power(p, {0, 1}, 4) == 2;
    assert Power(p, {3, 0}, 1) == 1 && Power(p, {3, 0}, 2) == 1 && Power(p, {3, 0}, 3) == 1 && Power(p, {3, 0}, 4) == 5;
  }

  lemma HeavyRow(t: nat)
    requires 0 < t <= 4
    ensures Row(HEAVY.powers, t, 4) == if t == 1 then [0, 1, 2, 3] else [3]
  {
    var p := HEAVY.powers;
    assert Row(p, t, 1) == if t == 1 then [0] else [];
    assert Row(p, t, 2) == if t == 1 then [0, 1] else [];
    assert Row(p, t, 3) == if t == 1 then [0, 1, 2] else [];
  }

  lemma HeavyLeaders()
    ensures HEAVY.Valid() && Leader(HEAVY.powers, 0) == 0 && Leader(HEAVY.powers, 1) == 1
    ensures Leader(HEAVY.powers, 3) == 3 && Leader(HEAVY.powers, 4) == 3
  {
    HeavyIsValid();
    var p := HEAVY.powers;
    assert p[3] == 4 && MaxPower(p) == 4;
    HeavyRow(1);
    HeavyRow(2);
    hide Row;
    assert Rows(p, 1) == [0, 1, 2, 3];
    assert Rows(p, 2) == [0, 1, 2, 3, 3];
    RowsGrow(p, 2, 4);
  }

  const PB0 := Proposal(0, 0, B0, None)
  const PB1 := Proposal(1, 1, B1, None)
  const PX0 := Proposal(3, 3, X0, None)
  const PX1 := Proposal(3, 4, X1, None)

  const IDLE := Peer(0, None, None, None)

  /** The heavy replica after each of its votes of views 0 and 1. */
  const VOTED_B0 := Replica({B0}, GENESIS_CERT, GENESIS_CERT, Some(0), None, Some(Header(0, B0, None)))
  const VOTED_B1 := Replica({B0, B1}, GENESIS_CERT, GENESIS_CERT, Some(1), None, Some(Header(1, B1, None)))

  lemma VotesOnB()
    ensures Follows(FRESH_REPLICA, PB0, VOTED_B0) && Follows(VOTED_B0, PB1, VOTED_B1)
  {
    assert {} + {B0} == {B0} && {B0} + {B1} == {B0, B1};
    assert BlockToCommit(Checked(VOTED_B0, PB1).(tree := {B0, B1}), Cert(0, B0)).None?;
  }

  /** The heavy replica votes for a block proposed in view 0. */
  lemma ViewZeroVote(net: Net) returns (t: Live)
    requires net.cfg == HEAVY
    ensures Reachable(net, t, false) && Shaped(net, t) && t.sent == {PB0}
    ensures Sits(t, 2, FRESH_REPLICA, IDLE) && Sits(t, 3, VOTED_B0, Peer(1, Some(Tip(B0, 0)), Some(Tip(B0, 0)), None))
    ensures Certified(HEAVY, t.sys, Cert(0, B0))
  {
    HeavyLeaders();
    HeavyIsValid();
    VotesOnB();
    StartIsReachable(net);
    var s := Start(net);
    PlainInOrder(net, s, PB0);
    hide Leader, Reachable, Follows, Certified, InOrder, IsQuorum, Config.Valid, Grows;
    var s1 := FaultyRound(net, s, PB0, 3, VOTED_B0, 0, false);
    t := Enter(net, s1, 3, Cert(0, B0), false);
    CertsStay(net, s1, t);
  }

  const HOLDS_B := Replica({B0, B1}, GENESIS_CERT, GENESIS_CERT, None, None, None)
  const COMMITTED_B0 := Replica({B0, B1}, Cert(1, B1), Cert(1, B1), None, Some(B0), None)

  lemma CommitOfB0()
    ensures InsertAndUpdate(InsertAndUpdate(FRESH_REPLICA, B0), B1) == HOLDS_B
    ensures Update(HOLDS_B, Cert(1, B1)) == COMMITTED_B0 && LockClause(HOLDS_B, Cert(1, B1))
  {
    assert {} + {B0} == {B0} && {B0} + {B1} == {B0, B1};
    assert InsertAndUpdate(FRESH_REPLICA, B0) == FRESH_REPLICA.(tree := {B0});
    assert BlockToCommit(HOLDS_B, Cert(0, B0)).None? && BlockToCommit(HOLDS_B, Cert(1, B1)) == Some(B0);
    assert WalkEnd(HOLDS_B, B0) == B0;
  }

  /** Its child in view 1 is certified too, and the leader of view 2 commits the block of view 0. */
  lemma ViewZeroCommit(net: Net) returns (t: Live)
    requires net.cfg == HEAVY && net.epochLength > 4
    ensures Reachable(net, t, false) && Shaped(net, t) && t.sent == {PB0, PB1}
    ensures Sits(t, 3, VOTED_B1, Peer(3, Some(Tip(B1, 1)), Some(Tip(B1, 1)), None))
    ensures Certified(HEAVY, t.sys, Cert(0, B0)) && Commit(2, B0) in t.sys.commits
  {
    hide Leader, Reachable, Follows, Certified, InOrder, IsQuorum, Config.Valid, Grows;
    HeavyLeaders();
    HeavyIsValid();
    VotesOnB();
    var s := ViewZeroVote(net);
    PlainInOrder(net, s, PB1);
    var s1 := FaultyRound(net, s, PB1, 3, VOTED_B1, 0, false);
    CertsStay(net, s, s1);
    t := LeaderTwoCommits(net, s1);
  }

  lemma LeaderTwoCommits(net: Net, s: Live) returns (t: Live)
    requires net.cfg == HEAVY && net.epochLength > 4 && Reachable(net, s, false) && Shaped(net, s)
    requires Sits(s, 2, FRESH_REPLICA, IDLE) && s.peers[3].view == 1
    requires Certified(HEAVY, s.sys, Cert(0, B0)) && Certified(HEAVY, s.sys, Cert(1, B1))
    ensures Reachable(net, t, false) && Shaped(net, t) && t.sent == s.sent && Grows(s, t)
    ensures Sits(t, 3, s.sys.replicas[3], s.peers[3].(view := 3))
    ensures Commit(2, B0) in t.sys.commits && Certified(HEAVY, t.sys, Cert(0, B0))
  {
    CommitOfB0();
    NoEpochChange(net, 1);
    NoEpochChange(net, 2);
    assert Certified(HEAVY, s.sys, GENESIS_CERT);
    hide Reachable, InsertAndUpdate, Update, Certified, Config.Valid, Grows;
    var s1 := Fetch(net, s, 2, B0, false);
    CertsStay(net, s, s1);
    var s2 := Fetch(net, s1, 2, B1, false);
    CertsStay(net, s1, s2);
    var s3 := Learn(net, s2, 2, Cert(1, B1), false);
    CertsStay(net, s2, s3);
    var s4 := Expire(net, s3, 3, false);
    t := Expire(net, s4, 3, false);
    GrowsOn(s, s1, s2);
    GrowsOn(s, s2, s3);
    GrowsOn(s, s3, s4);
    GrowsOn(s, s4, t);
  }

  /** The heavy replica, locked and committed nowhere, after the two votes of its own branch. */
  function VotedX(tree: set<Block>): Replica {
    Replica(tree + {X0} + {X1}, Cert(3, X0), Cert(3, X0), Some(4), None, Some(Header(4, X1, None)))
  }

  function ReadyForX(tree: set<Block>, voted: Option<nat>, awaiting: Option<Header>): Replica {
    Replica(tree, GENESIS_CERT, GENESIS_CERT, voted, None, awaiting)
  }

  function LedX0(tree: set<Block>): Replica {
    Replica(tree + {X0}, GENESIS_CERT, GENESIS_CERT, Some(3), None, Some(Header(3, X0, None)))
  }

  lemma XSteps(tree: set<Block>, voted: Option<nat>, awaiting: Option<Header>)
    requires voted.None? || voted.value < 3
    ensures VotesFor(InsertAndUpdate(ReadyForX(tree, voted, awaiting), X0), PX0, LedX0(tree))
    ensures VotesFor(InsertAndUpdate(LedX0(tree).(highest := Cert(3, X0)), X1), PX1, VotedX(tree))
    ensures LockClause(VotedX(tree), Cert(4, X1)) && Update(VotedX(tree), Cert(4, X1)).frontier == Some(X0)
  {
    assert InsertAndUpdate(ReadyForX(tree, voted, awaiting), X0) == ReadyForX(tree + {X0}, voted, awaiting);
    var p := LedX0(tree).(highest := Cert(3, X0), tree := tree + {X0} + {X1});
    assert BlockToCommit(p, Cert(3, X0)).None?;
    assert InsertAndUpdate(LedX0(tree).(highest := Cert(3, X0)), X1) == p.(locked := Cert(3, X0));
    assert BlockToCommit(VotedX(tree), Cert(4, X1)) == Some(X0) && WalkEnd(VotedX(tree), X0) == X0;
  }

  lemma LeadsX0(net: Net, s: Live, tree: set<Block>, voted: Option<nat>, awaiting: Option<Header>) returns (t: Live)
    requires net.cfg == HEAVY && Reachable(net, s, false) && Shaped(net, s) && SentBelow(s, 3)
    requires s.sys.replicas[3] == ReadyForX(tree, voted, awaiting) && (voted.None? || voted.value < 3)
    requires s.peers[3].view == 3 && !HoldsTc(s.peers[3], 3)
    ensures Reachable(net, t, false) && Shaped(net, t) && SentBelow(t, 4) && Grows(s, t)
    ensures t.sys.replicas[3] == LedX0(tree).(highest := Cert(3, X0)) && t.peers[3].view == 4
    ensures t.sys.votes == s.sys.votes + {Vote(3, 3, X0), Vote(0, 3, X0)} && Certified(HEAVY, t.sys, Cert(3, X0))
  {
    HeavyLeaders();
    HeavyIsValid();
    XSteps(tree, voted, awaiting);
    assert Certified(HEAVY, s.sys, GENESIS_CERT);
    hide Leader, Reachable, VotesFor, InsertAndUpdate, Certified, MaySend, IsQuorum, Config.Valid, Grows;
    PlainMaySend(net, s, PX0);
    var s1 := LoneRound(net, s, PX0, LedX0(tree), 0, false);
    t := Enter(net, s1, 3, Cert(3, X0), false);
    CertsStay(net, s1, t);
    GrowsOn(s, s1, t);
  }

  /** From genesis, with no certificate above view 0 known, it leads two blocks and commits the first. */
  lemma CommitsX(net: Net, s: Live, tree: set<Block>, voted: Option<nat>, awaiting: Option<Header>) returns (t: Live)
    requires net.cfg == HEAVY && Reachable(net, s, false) && Shaped(net, s) && SentBelow(s, 3)
    requires s.sys.replicas[3] == ReadyForX(tree, voted, awaiting) && (voted.None? || voted.value < 3)
    requires s.peers[3].view == 3 && !HoldsTc(s.peers[3], 3)
    ensures Reachable(net, t, false) && Grows(s, t) && Commit(3, X0) in t.sys.commits
    ensures forall v | v in t.sys.votes :: v in s.sys.votes || v.view > 0
  {
    hide Leader, Reachable, VotesFor, InsertAndUpdate, Certified, Update, LockClause, MaySend, IsQuorum, Config.Valid,
        Grows;
    HeavyLeaders();
    HeavyIsValid();
    XSteps(tree, voted, awaiting);
    var s1 := LeadsX0(net, s, tree, voted, awaiting);
    PlainMaySend(net, s1, PX1);
    var s2 := LoneRound(net, s1, PX1, VotedX(tree), 0, false);
    t := Learn(net, s2, 3, Cert(4, X1), false);
    GrowsOn(s, s1, s2);
    GrowsOn(s, s2, t);
  }

  /**
   Without the view-0 condition agreement fails under all proposal rules. Two faulty validators of
   a seventh of the power each lead views 0 and 1 and propose there; honest leaders propose by the
   leader rules, every header passes the voters' checks, every vote follows a successful update, and
   two honest replicas commit blocks on different branches.
   */
  lemma ViewZeroBreaksAgreement(epochLength: nat) returns (moves: seq<Move>)
    requires epochLength > 4
    ensures var net := Net(HEAVY, epochLength); net.Valid() && UpdatesBeforeVotes(HEAVY, Labels(net, moves))
    ensures var s := Run(Net(HEAVY, epochLength), moves).sys;
      && Commit(2, B0) in s.commits && Commit(3, X0) in s.commits
      && !Extends(B0, X0) && !Extends(X0, B0) && Certified(HEAVY, s, Cert(0, B0))
  {
    var net := Net(HEAVY, epochLength);
    var s := ViewZeroCommit(net);
    var t := CommitsX(net, s, {B0, B1}, Some(1), Some(Header(1, B1, None)));
    CertsStay(net, s, t);
    hide Certified, Labels;
    var ms: seq<Move> :| Run(net, ms) == t && forall m | m in ms :: !m.GetFull?;
    HeadersUpdateBeforeVotes(net, ms);
    moves := ms;
  }

  /** A timeout certificate whose signers have voted for nothing. */
  function SilentTc(view: nat, signers: set<Validator>): TimeoutCert {
    TimeoutCert(view, map v | v in signers :: Report(None, None), None, None)
  }

  lemma SilentTcIsCorrect(net: Net, s: Live, view: nat, signers: set<Validator>)
    requires IsQuorum(net.cfg.powers, signers)
        && forall v | v in signers :: Timeout(v, view, Report(None, None)) in s.timeouts
    ensures CorrectTc(net, s, SilentTc(view, signers)) && !TipWins(SilentTc(view, signers))
  {
    assert SilentTc(view, signers).reports.Keys == signers;
  }

  /** Both conditions of agreement can be met by a run under the rules that commits. */
  lemma ConditionsAdmitCommits(epochLength: nat) returns (moves: seq<Move>)
    requires epochLength > 4
    ensures var net := Net(HEAVY, epochLength);
      && net.Valid() && UpdatesBeforeVotes(HEAVY, Labels(net, moves)) && NoViewZero(HEAVY, Run(net, moves).sys)
      && Commit(3, X0) in Run(net, moves).sys.commits
  {
    var net := Net(HEAVY, epochLength);
    var s := ReachesViewThree(net);
    var t := CommitsX(net, s, {}, None, None);
    NothingInViewZero(net, t);
    hide Labels, NoViewZero;
    var ms: seq<Move> :| Run(net, ms) == t && forall m | m in ms :: !m.GetFull?;
    HeadersUpdateBeforeVotes(net, ms);
    moves := ms;
  }

  /** View 0 is left with a timeout certificate, views 1 and 2 by the clock. */
  lemma ReachesViewThree(net: Net) returns (t: Live)
    requires net.cfg == HEAVY && net.epochLength > 4
    ensures Reachable(net, t, false) && Shaped(net, t) && t.sent == {} && t.sys.votes == {}
    ensures t.sys.replicas[3] == FRESH_REPLICA && t.peers[3].view == 3 && !HoldsTc(t.peers[3], 3)
  {
    hide Reachable, CorrectTc, IsQuorum, Config.Valid, TipWins;
    HeavyIsValid();
    StartIsReachable(net);
    NoEpochChange(net, 1);
    NoEpochChange(net, 2);
    var s := Start(net);
    var s1 := Expire(net, s, 3, false);
    var s2 := SignTimeout(net, s1, Timeout(0, 0, Report(None, None)), false);
    SilentTcIsCorrect(net, s2, 0, {3, 0});
    var s3 := Hold(net, s2, 3, SilentTc(0, {3, 0}), false);
    var s4 := Expire(net, s3, 3, false);
    t := Expire(net, s4, 3, false);
  }
}
