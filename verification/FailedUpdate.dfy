/**
 A vote cast after a failed update: when it leaves the voter unlocked, and a run under all proposal
 rules in which it breaks agreement.

 Four validators of equal power; 0 is faulty and leads view 4. Validator 3 joined late and holds A1
 and A2 without their ancestor A0, as a faulty sync server can arrange. In view 4 the faulty leader
 sends the whole proposal A3 to 1 and 3. Both vote, 1 locked on A2, 3 not locked since its update
 failed. Validator 1 collects the votes and commits A2. The faulty leader has also signed a header of
 A2's sibling Y0 for view 4, reports it as its tip, and with 2 and 3 times out of view 5. The tip Y0
 wins, so the honest leader of view 6 proposes it again, and 2 and 3 vote for it.
 */
module FailedUpdate {
  import opened Options
  import opened Voting
  import opened VotingRuns
  import opened Agreement
  import opened LeaderSelection
  import opened ProposalRules
  import opened RuleRuns
  import opened AgreementLimits

  /** Exactly when a voting replica ends up locked at least as high as the block it votes for. */
  lemma VoteLocksUnlessUpdateFails(cfg: Config, s: System, l: Label)
    requires |s.replicas| == |cfg.powers| && l.OnProposal? && cfg.Honest(l.at) && l.block.Node?
    requires !IsCommittedBlock(s.replicas[l.at], l.block)
    requires Vote(l.at, l.view, l.block) in Step(cfg, s, l).votes && Vote(l.at, l.view, l.block) !in s.votes
    ensures Step(cfg, s, l).replicas[l.at].locked.view >= l.block.justifyView <==>
      (UpdateBeforeVote(cfg, s, l) || s.replicas[l.at].locked.view >= l.block.justifyView)
  {
    var r := s.replicas[l.at];
    var p := r.(tree := r.tree + {l.block});
    hide Certified, SafeProposalLock, IsCommittedBlock, UpdateFails, BlockToCommit, CommitConnects;
    assert Step(cfg, s, l).replicas[l.at].locked == InsertAndUpdate(r, l.block).locked;
  }

  // ------------------------------------------------------------------ four validators

  const FOUR := Config([1, 1, 1, 1], {0})

  const A0 := Node(Genesis, 0, 0)
  const A1 := Node(A0, 1, 1)
  const A2 := Node(A1, 2, 2)
  const A3 := Node(A2, 3, 3)
  const Y0 := Node(A1, 2, 4)
  const Y1 := Node(Y0, 6, 5)

  lemma FourTotals()
    ensures FOUR.Valid() && Total(FOUR.powers) == 4 && Quorum(FOUR.powers) == 3
  {
    var p := FOUR.powers;
    assert TotalOf(p, 1) == 1 && TotalOf(p, 2) == 2 && TotalOf(p, 3) == 3 && TotalOf(p, 4) == 4;
    assert Power(p, {0}, 1) == 1 && Power(p, {0}, 2) == 1 && Power(p, {0}, 3) == 1 && Power(p, {0}, 4) == 1;
  }

  lemma Three(a: Validator, b: Validator, c: Validator)
    requires a < 4 && b < 4 && c < 4 && a != b && b != c && a != c
    ensures IsQuorum(FOUR.powers, {a, b, c})
  {
    FourTotals();
    var p, s := FOUR.powers, {a, b, c};
    assert Power(p, s, 1) == if 0 in s then 1 else 0;
    assert Power(p, s, 2) == Power(p, s, 1) + if 1 in s then 1 else 0;
    assert Power(p, s, 3) == Power(p, s, 2) + if 2 in s then 1 else 0;
    assert Power(p, s, 4) == Power(p, s, 3) + if 3 in s then 1 else 0;
  }

  lemma FourLeaders(view: nat)
    requires view < 8
    ensures FOUR.Valid() && Leader(FOUR.powers, view) == view % 4
  {
    FourTotals();
    var p := FOUR.powers;
    assert Row(p, 1, 1) == [0] && Row(p, 1, 2) == [0, 1] && Row(p, 1, 3) == [0, 1, 2] && Row(p, 1, 4) == [0, 1, 2, 3];
    assert MaxPower(p) == 1 by { assert p[0] == 1; }
    assert Rows(p, 1) == [0, 1, 2, 3];
  }

  // ------------------------------------------------------------------ the replicas along the run

  const TC0 := SilentTc(0, {0, 1, 2})

  const PA0 := Proposal(1, 1, A0, Some(TC0))
  const PA1 := Proposal(2, 2, A1, None)
  const PA2 := Proposal(3, 3, A2, None)
  const PA3 := Proposal(0, 4, A3, None)

  const VOTED_A0 := Replica({A0}, GENESIS_CERT, GENESIS_CERT, Some(1), None, Some(Header(1, A0, None)))
  const VOTED_A1 := Replica({A0, A1}, Cert(1, A0), Cert(1, A0), Some(2), None, Some(Header(2, A1, None)))

  /** Validator 2 after its vote for A2, with A0 committed. */
  const LAGGING := Replica({A0, A1, A2}, Cert(2, A1), Cert(2, A1), Some(3), Some(A0), Some(Header(3, A2, None)))

  /** Validator 3 with A1 but not A0, after leading A2, and after its vote for A3. */
  const LATE := Replica({A1}, Cert(1, A0), Cert(1, A0), None, None, None)
  const LED_A2 := Replica({A1, A2}, Cert(2, A1), Cert(2, A1), Some(3), None, Some(Header(3, A2, None)))
  const UNLOCKED := LED_A2.(tree := {A1, A2, A3}, voted := Some(4))

  /** Validator 1 before, at and after A3. */
  const BEFORE_A3 := Replica({A0, A1, A2}, Cert(2, A1), Cert(2, A1), Some(2), Some(A0), Some(Header(2, A1, None)))
  const VOTED_A3 := Replica({A0, A1, A2, A3}, Cert(3, A2), Cert(3, A2), Some(4), Some(A1), Some(Header(2, A1, None)))

  lemma StepsA0()
    ensures VotesFor(InsertAndUpdate(FRESH_REPLICA, A0), PA0, VOTED_A0) && Follows(FRESH_REPLICA, PA0, VOTED_A0)
  {
    assert {} + {A0} == {A0};
    assert InsertAndUpdate(FRESH_REPLICA, A0) == FRESH_REPLICA.(tree := {A0});
  }

  lemma StepsA1()
    ensures var r := VOTED_A0.(highest := Cert(1, A0));
      VotesFor(InsertAndUpdate(r, A1), PA1, VOTED_A1) && Follows(r, PA1, VOTED_A1)
    ensures InsertAndUpdate(FRESH_REPLICA, A1) == LATE
  {
    var r := VOTED_A0.(highest := Cert(1, A0), tree := {A0, A1});
    assert {A0} + {A1} == {A0, A1} && {} + {A1} == {A1};
    assert BlockToCommit(r, Cert(1, A0)).None?;
    assert InsertAndUpdate(VOTED_A0.(highest := Cert(1, A0)), A1) == r.(locked := Cert(1, A0));
    assert BlockToCommit(FRESH_REPLICA.(tree := {A1}), Cert(1, A0)).None?;
  }

  lemma StepsA2Late()
    ensures VotesFor(InsertAndUpdate(LATE.(highest := Cert(2, A1)), A2), PA2, LED_A2)
  {
    var r := LATE.(highest := Cert(2, A1), tree := {A1, A2});
    assert {A1} + {A2} == {A1, A2};
    assert BlockToCommit(r, Cert(2, A1)).None?;
    assert InsertAndUpdate(LATE.(highest := Cert(2, A1)), A2) == r.(locked := Cert(2, A1));
  }

  lemma CommitsA0(r: Replica)
    requires r.tree == {A0, A1, A2} && r.frontier.None?
    ensures !UpdateFails(r, Cert(2, A1)) && Update(r, Cert(2, A1)) == UpdateLocksOnly(r, Cert(2, A1)).(frontier := Some(A0))
  {
    assert BlockToCommit(r, Cert(2, A1)) == Some(A0) && WalkEnd(r, A0) == A0;
  }

  lemma StepsA2()
    ensures Follows(VOTED_A1.(highest := Cert(2, A1)), PA2, LAGGING)
    ensures InsertAndUpdate(VOTED_A1, A2) == BEFORE_A3
  {
    assert {A0, A1} + {A2} == {A0, A1, A2};
    CommitsA0(VOTED_A1.(tree := {A0, A1, A2}));
    CommitsA0(Checked(VOTED_A1.(highest := Cert(2, A1)), PA2).(tree := {A0, A1, A2}));
  }

  lemma StepsA3()
    ensures var r := BEFORE_A3.(highest := Cert(3, A2));
      && Admits(r, PA3) && MayVote(r, 4) && RecordVote(InsertAndUpdate(r, A3), 4) == VOTED_A3
    ensures Admits(LED_A2, PA3) && MayVote(LED_A2, 4) && RecordVote(InsertAndUpdate(LED_A2, A3), 4) == UNLOCKED
    ensures LockClause(VOTED_A3, Cert(4, A3)) && Update(VOTED_A3, Cert(4, A3)).frontier == Some(A2)
  {
    assert {A0, A1, A2} + {A3} == {A0, A1, A2, A3} && {A1, A2} + {A3} == {A1, A2, A3};
    var r := BEFORE_A3.(highest := Cert(3, A2), tree := {A0, A1, A2, A3});
    assert BlockToCommit(r, Cert(3, A2)) == Some(A1) && WalkEnd(r, A1) == A1;
    var p := LED_A2.(tree := {A1, A2, A3});
    assert BlockToCommit(p, Cert(3, A2)) == Some(A1) && WalkEnd(p, A0) == A0 && WalkEnd(p, A1) == A0;
    assert BlockToCommit(VOTED_A3, Cert(4, A3)) == Some(A2) && WalkEnd(VOTED_A3, A2) == A2;
  }

  const TIP_A2 := Some(Tip(A2, 3))
  const TIP_A3 := Some(Tip(A3, 4))
  const TIP_Y0 := Some(Tip(Y0, 4))

  /** The faulty signer reports the header it made for Y0; the honest two report what they hold. */
  const TC5 := TimeoutCert(5,
      map[0 := Report(TIP_Y0, None), 2 := Report(TIP_A2, Some(Cert(2, A1))), 3 := Report(TIP_A3, Some(Cert(2, A1)))],
      TIP_Y0, Some(Cert(2, A1)))

  /** The header of Y0 the faulty leader of view 4 signs beside A3. */
  const SECOND := Proposal(0, 4, Y0, None)
  const PY0 := Proposal(2, 6, Y0, Some(TC5))
  const PY1 := Proposal(3, 7, Y1, None)

  const AWAITS_Y0 := Some(Header(6, Y0, Some(Cert(2, A1))))
  const HOLDS_Y0 := LAGGING.(tree := {A0, A1, A2, Y0})
  const LED_Y0 := HOLDS_Y0.(voted := Some(6), awaiting := AWAITS_Y0)
  const VOTED_Y0 := UNLOCKED.(tree := {A1, A2, A3, Y0}, voted := Some(6), awaiting := AWAITS_Y0)

  const LED_Y1 := Replica({A1, A2, A3, Y0, Y1}, Cert(6, Y0), Cert(6, Y0), Some(7), None, Some(Header(7, Y1, None)))
  const VOTED_Y1 := Replica({A0, A1, A2, Y0, Y1}, Cert(6, Y0), Cert(6, Y0), Some(7), Some(A0), Some(Header(7, Y1, None)))

  lemma StepsY0()
    ensures InsertAndUpdate(LAGGING, Y0) == HOLDS_Y0 && VotesFor(HOLDS_Y0, PY0, LED_Y0)
    ensures Follows(UNLOCKED, PY0, VOTED_Y0)
  {
    assert {A0, A1, A2} + {Y0} == {A0, A1, A2, Y0} && {A1, A2, A3} + {Y0} == {A1, A2, A3, Y0};
    assert BlockToCommit(HOLDS_Y0, Cert(2, A1)).None?;
    assert BlockToCommit(Checked(UNLOCKED, PY0).(tree := {A1, A2, A3, Y0}), Cert(2, A1)).None?;
  }

  lemma StepsY1()
    ensures VotesFor(InsertAndUpdate(VOTED_Y0.(highest := Cert(6, Y0)), Y1), PY1, LED_Y1)
    ensures Follows(LED_Y0.(highest := Cert(6, Y0)), PY1, VOTED_Y1)
    ensures LockClause(VOTED_Y1, Cert(7, Y1)) && Update(VOTED_Y1, Cert(7, Y1)).frontier == Some(Y0)
  {
    assert {A1, A2, A3, Y0} + {Y1} == {A1, A2, A3, Y0, Y1} && {A0, A1, A2, Y0} + {Y1} == {A0, A1, A2, Y0, Y1};
    var h := VOTED_Y0.(highest := Cert(6, Y0), tree := {A1, A2, A3, Y0, Y1});
    assert BlockToCommit(h, Cert(6, Y0)).None?;
    assert InsertAndUpdate(VOTED_Y0.(highest := Cert(6, Y0)), Y1) == h.(locked := Cert(6, Y0));
    assert BlockToCommit(Checked(LED_Y0.(highest := Cert(6, Y0)), PY1).(tree := {A0, A1, A2, Y0, Y1}), Cert(6, Y0)).None?;
    assert BlockToCommit(VOTED_Y1, Cert(7, Y1)) == Some(Y0) && WalkEnd(VOTED_Y1, A1) == A1 && WalkEnd(VOTED_Y1, Y0) == A1;
  }

  // ------------------------------------------------------------------ the run

  ghost predicate Stage(net: Net, s: Live, view: nat) {
    && net.cfg == FOUR && net.epochLength > 7 && Reachable(net, s, true) && Shaped(net, s)
    && SentBelow(s, view) && NoVoteInViewZero(s)
  }

  /** Validators 1 and 2 leave view 0 with a timeout certificate. */
  lemma Leaves(epochLength: nat) returns (net: Net, t: Live)
    requires epochLength > 7
    ensures net == Net(FOUR, epochLength) && Stage(net, t, 1) && t.sent == {}
    ensures Sits(t, 1, FRESH_REPLICA, Peer(1, None, None, Some(TC0)))
    ensures Sits(t, 2, FRESH_REPLICA, Peer(1, None, None, Some(TC0))) && Sits(t, 3, FRESH_REPLICA, IDLE)
    ensures CorrectTc(net, t, TC0)
  {
    hide CorrectTc, IsQuorum, Config.Valid, TipWins, Reachable;
    net := Net(FOUR, epochLength);
    FourTotals();
    Three(0, 1, 2);
    StartIsReachable(net);
    WidenReach(net, Start(net));
    var s1 := Expire(net, Start(net), 1, true);
    var s2 := Expire(net, s1, 2, true);
    var s3 := SignTimeout(net, s2, Timeout(0, 0, Report(None, None)), true);
    SilentTcIsCorrect(net, s3, 0, {0, 1, 2});
    var s4 := Hold(net, s3, 1, TC0, true);
    TcStays(net, s3, s4, TC0);
    t := Hold(net, s4, 2, TC0, true);
    TcStays(net, s4, t, TC0);
  }

  lemma WidenReach(net: Net, s: Live)
    requires Reachable(net, s, false)
    ensures Reachable(net, s, true)
  {
  }

  lemma TcStays(net: Net, s: Live, t: Live, tc: TimeoutCert)
    requires Grows(s, t) && CorrectTc(net, s, tc)
    ensures CorrectTc(net, t, tc)
  {
    if tc.highQc.Some? { CertifiedMonotone(net.cfg, s.sys, t.sys, tc.highQc.value); }
  }

  function Saw(view: nat, b: Block, at: nat): Peer {
    Peer(view, Some(Tip(b, at)), Some(Tip(b, at)), Some(TC0))
  }

  lemma FirstMaySend(net: Net, s: Live)
    requires Stage(net, s, 1) && Sits(s, 1, FRESH_REPLICA, Peer(1, None, None, Some(TC0))) && CorrectTc(net, s, TC0)
    ensures net.Valid() && MaySend(net, s, PA0) && !Reproposes(PA0) && TipOf(PA0) == Some(Tip(A0, 1))
  {
    hide CorrectTc, Leader, Config.Valid;
    FourLeaders(1);
    assert !TipWins(TC0) && TC0.highQc.None? && TC0.view == 0;
    assert ProposesOnTc(FRESH_REPLICA, Peer(1, None, None, Some(TC0)), PA0) && KeepsWinner(PA0);
    assert Certified(FOUR, s.sys, Justify(A0));
    hide TipWins, ProposesOnTc, KeepsWinner, Certified;
    TcMaySend(net, s, PA0);
  }

  /** View 1: validator 1 leads A0, and 2 follows. */
  lemma ViewOne(net: Net, s: Live) returns (t: Live)
    requires Stage(net, s, 1) && CorrectTc(net, s, TC0) && Sits(s, 1, FRESH_REPLICA, Peer(1, None, None, Some(TC0)))
    requires Sits(s, 2, FRESH_REPLICA, Peer(1, None, None, Some(TC0))) && Sits(s, 3, FRESH_REPLICA, IDLE)
    ensures Stage(net, t, 2) && Certified(FOUR, t.sys, Cert(1, A0))
    ensures Sits(t, 1, VOTED_A0, Saw(1, A0, 1)) && Sits(t, 2, VOTED_A0, Saw(1, A0, 1)) && Sits(t, 3, FRESH_REPLICA, IDLE)
  {
    hide Reachable, CorrectTc, Certified, IsQuorum, Config.Valid, Follows, VotesFor, MaySend, InOrder,
        InsertAndUpdate, Grows,
      TipWins;
    Three(1, 2, 0);
    StepsA0();
    FirstMaySend(net, s);
    var s1 := Lead(net, s, PA0, VOTED_A0, true);
    SentInOrder(net, s, s1, PA0);
    t := JoinRound(net, s1, PA0, 2, VOTED_A0, 0, true);
  }

  lemma SentInOrder(net: Net, s: Live, t: Live, p: Proposal)
    requires net.Valid() && Shaped(net, s) && MaySend(net, s, p) && Grows(s, t)
    ensures InOrder(net, t, p)
  {
    hide HonestProposal, Leader;
    Stays(net, s, t, p);
  }

  lemma NextMaySend(net: Net, s: Live, p: Proposal)
    requires Stage(net, s, p.view) && 0 < p.view < 8 && p.from == p.view % 4 && p.from != 0 && p.tc.None? && p.block.Node?
    requires Certified(FOUR, s.sys, Justify(p.block)) && s.peers[p.from].view == p.view
    requires var r := s.sys.replicas[p.from];
      r.highest == Justify(p.block) != GENESIS_CERT && p.block.justifyView + 1 == p.view && p.block.parent in r.tree
    ensures net.Valid() && MaySend(net, s, p) && InOrder(net, s, p) && !Reproposes(p)
    ensures TipOf(p) == Some(Tip(p.block, p.view))
  {
    FourLeaders(p.view);
    hide Leader, Certified;
    PlainMaySend(net, s, p);
  }

  /** Validators 1 and 2 learn the certificate of view 1, and 2 leads A1. */
  lemma ViewTwo(net: Net, s: Live) returns (t: Live)
    requires Stage(net, s, 2) && Certified(FOUR, s.sys, Cert(1, A0))
    requires Sits(s, 1, VOTED_A0, Saw(1, A0, 1)) && Sits(s, 2, VOTED_A0, Saw(1, A0, 1)) && Sits(s, 3, FRESH_REPLICA, IDLE)
    ensures Stage(net, t, 3) && Certified(FOUR, t.sys, Cert(1, A0)) && Certified(FOUR, t.sys, Cert(2, A1))
    ensures Sits(t, 1, VOTED_A1, Saw(2, A1, 2)) && Sits(t, 2, VOTED_A1, Saw(2, A1, 2)) && Sits(t, 3, FRESH_REPLICA, IDLE)
  {
    hide Reachable, Certified, IsQuorum, Config.Valid, Follows, VotesFor, MaySend, InOrder, InsertAndUpdate, Grows, TipWins;
    Three(2, 1, 0);
    StepsA1();
    var s1 := Enter(net, s, 1, Cert(1, A0), true);
    CertsStay(net, s, s1);
    var s2 := Enter(net, s1, 2, Cert(1, A0), true);
    CertsStay(net, s1, s2);
    NextMaySend(net, s2, PA1);
    var s3 := Lead(net, s2, PA1, VOTED_A1, true);
    Stays(net, s2, s3, PA1);
    t := JoinRound(net, s3, PA1, 1, VOTED_A1, 0, true);
    CertsStay(net, s2, s3);
    CertsStay(net, s3, t);
  }

  /** Validator 3 gets A1 without A0 and, with the certificate of view 2, leads A2. */
  lemma ViewThree(net: Net, s: Live) returns (t: Live)
    requires Stage(net, s, 3) && Certified(FOUR, s.sys, Cert(1, A0)) && Certified(FOUR, s.sys, Cert(2, A1))
    requires Sits(s, 1, VOTED_A1, Saw(2, A1, 2)) && Sits(s, 2, VOTED_A1, Saw(2, A1, 2)) && Sits(s, 3, FRESH_REPLICA, IDLE)
    ensures Stage(net, t, 4) && Certified(FOUR, t.sys, Cert(2, A1)) && Certified(FOUR, t.sys, Cert(3, A2))
    ensures Sits(t, 1, VOTED_A1, Saw(2, A1, 2)) && Sits(t, 2, LAGGING, Saw(3, A2, 3))
    ensures Sits(t, 3, LED_A2, Peer(3, TIP_A2, TIP_A2, None))
  {
    hide Reachable, Certified, IsQuorum, Config.Valid, Follows, VotesFor, MaySend, InOrder, InsertAndUpdate, Grows, TipWins;
    Three(3, 2, 0);
    StepsA1();
    StepsA2Late();
    StepsA2();
    var s1 := Fetch(net, s, 3, A1, true);
    CertsStay(net, s, s1);
    var s2 := Enter(net, s1, 3, Cert(2, A1), true);
    CertsStay(net, s1, s2);
    var s3 := Enter(net, s2, 2, Cert(2, A1), true);
    CertsStay(net, s2, s3);
    NextMaySend(net, s3, PA2);
    var s4 := Lead(net, s3, PA2, LED_A2, true);
    Stays(net, s3, s4, PA2);
    t := JoinRound(net, s4, PA2, 2, LAGGING, 0, true);
    CertsStay(net, s3, s4);
    CertsStay(net, s4, t);
  }

  /** Validators 1 and 3 reach view 4, 1 with the certificate of view 3 and 3 by the clock. */
  lemma ReachesFour(net: Net, s: Live) returns (t: Live)
    requires Stage(net, s, 4) && Certified(FOUR, s.sys, Cert(2, A1)) && Certified(FOUR, s.sys, Cert(3, A2))
    requires Sits(s, 1, VOTED_A1, Saw(2, A1, 2)) && Sits(s, 2, LAGGING, Saw(3, A2, 3))
    requires Sits(s, 3, LED_A2, Peer(3, TIP_A2, TIP_A2, None))
    ensures Stage(net, t, 4) && Certified(FOUR, t.sys, Cert(2, A1)) && Certified(FOUR, t.sys, Cert(3, A2))
    ensures Sits(t, 1, BEFORE_A3.(highest := Cert(3, A2)), Saw(4, A1, 2)) && Sits(t, 2, LAGGING, Saw(3, A2, 3))
    ensures Sits(t, 3, LED_A2, Peer(4, TIP_A2, TIP_A2, None))
  {
    hide Reachable, Certified, Config.Valid, InsertAndUpdate, Grows;
    StepsA2();
    NoEpochChange(net, 3);
    var s1 := Fetch(net, s, 1, A2, true);
    CertsStay(net, s, s1);
    var s2 := Enter(net, s1, 1, Cert(3, A2), true);
    CertsStay(net, s1, s2);
    t := Expire(net, s2, 3, true);
  }

  /** The whole proposal A3 reaches 1 and 3: both vote, 3 without the lock. */
  lemma ViewFour(net: Net, s: Live) returns (t: Live)
    requires Stage(net, s, 4) && Certified(FOUR, s.sys, Cert(2, A1)) && Certified(FOUR, s.sys, Cert(3, A2))
    requires Sits(s, 1, BEFORE_A3.(highest := Cert(3, A2)), Saw(4, A1, 2)) && Sits(s, 2, LAGGING, Saw(3, A2, 3))
    requires Sits(s, 3, LED_A2, Peer(4, TIP_A2, TIP_A2, None))
    ensures Stage(net, t, 5) && Certified(FOUR, t.sys, Cert(2, A1)) && Certified(FOUR, t.sys, Cert(4, A3))
    ensures t.sys.replicas[1] == VOTED_A3 && Sits(t, 2, LAGGING, Saw(3, A2, 3))
    ensures Sits(t, 3, UNLOCKED, Peer(4, TIP_A3, TIP_A2, None)) && Vote(3, 4, A3) in t.sys.votes
  {
    hide Reachable, Certified, IsQuorum, Config.Valid, InOrder, InsertAndUpdate, Grows, TipWins, Admits, Leader, MayVote;
    FourLeaders(4);
    Three(1, 3, 0);
    StepsA3();
    PlainInOrder(net, s, PA3);
    var s1 := SignProposal(net, s, PA3, true);
    Stays(net, s, s1, PA3);
    var s2 := Full(net, s1, 1, PA3);
    Stays(net, s1, s2, PA3);
    var s3 := Full(net, s2, 3, PA3);
    t := VoteAlong(net, s3, Vote(0, 4, A3), true);
    CertifiedBy(FOUR, t.sys, Cert(4, A3), {1, 3, 0});
    GrowsOn(s, s1, s2);
    GrowsOn(s, s2, s3);
    GrowsOn(s, s3, t);
    CertsStay(net, s, t);
  }

  lemma UpToViewFour(epochLength: nat) returns (net: Net, t: Live)
    requires epochLength > 7
    ensures net == Net(FOUR, epochLength)
    ensures Stage(net, t, 5) && Certified(FOUR, t.sys, Cert(2, A1)) && Certified(FOUR, t.sys, Cert(4, A3))
    ensures t.sys.replicas[1] == VOTED_A3 && Sits(t, 2, LAGGING, Saw(3, A2, 3))
    ensures Sits(t, 3, UNLOCKED, Peer(4, TIP_A3, TIP_A2, None)) && Vote(3, 4, A3) in t.sys.votes
  {
    hide Stage, Certified, CorrectTc;
    var s0;
    net, s0 := Leaves(epochLength);
    var s1 := ViewOne(net, s0);
    var s2 := ViewTwo(net, s1);
    var s3 := ViewThree(net, s2);
    var s4 := ReachesFour(net, s3);
    t := ViewFour(net, s4);
  }

  /** Validators 2 and 3 time out up to view 6. */
  lemma TimesOut(net: Net, s: Live) returns (t: Live)
    requires Stage(net, s, 5) && Certified(FOUR, s.sys, Cert(2, A1))
    requires Sits(s, 2, LAGGING, Saw(3, A2, 3)) && Sits(s, 3, UNLOCKED, Peer(4, TIP_A3, TIP_A2, None))
    ensures Stage(net, t, 5) && Certified(FOUR, t.sys, Cert(2, A1)) && Grows(s, t)
    ensures Sits(t, 2, LAGGING, Saw(6, A2, 3)) && Sits(t, 3, UNLOCKED, Peer(6, TIP_A3, TIP_A2, None))
    ensures Timeout(2, 5, Report(TIP_A2, Some(Cert(2, A1)))) in t.timeouts
    ensures Timeout(3, 5, Report(TIP_A3, Some(Cert(2, A1)))) in t.timeouts
  {
    hide Reachable, Certified, Config.Valid;
    NoEpochChange(net, 3);
    NoEpochChange(net, 4);
    NoEpochChange(net, 5);
    var s1 := Expire(net, s, 2, true);
    var s2 := Expire(net, s1, 2, true);
    var s3 := Expire(net, s2, 2, true);
    var s4 := Expire(net, s3, 3, true);
    t := Expire(net, s4, 3, true);
  }

  lemma Tc5IsCorrect(net: Net, s: Live)
    requires net.cfg == FOUR && Certified(FOUR, s.sys, Cert(2, A1)) && SECOND in s.sent
    requires Timeout(0, 5, Report(TIP_Y0, None)) in s.timeouts
    requires Timeout(2, 5, Report(TIP_A2, Some(Cert(2, A1)))) in s.timeouts
    requires Timeout(3, 5, Report(TIP_A3, Some(Cert(2, A1)))) in s.timeouts
    ensures CorrectTc(net, s, TC5)
  {
    hide Certified, IsQuorum;
    Three(0, 2, 3);
    assert TC5.reports.Keys == {0, 2, 3};
    assert TC5.reports[0].tip == TC5.highTip && TC5.reports[2].qc == TC5.highQc;
    assert SECOND.view == 4 && SECOND.block == Y0;
  }

  lemma Y0Wins()
    ensures TipWins(TC5) && Reproposes(PY0) && KeepsWinner(PY0) && TipOf(PY0) == TIP_Y0
  {
  }

  /** The faulty leader's second header becomes the winning tip of a correct timeout certificate. */
  lemma CollectsTc5(net: Net, s: Live) returns (t: Live)
    requires Stage(net, s, 5) && Certified(FOUR, s.sys, Cert(2, A1))
    requires Sits(s, 2, LAGGING, Saw(3, A2, 3)) && Sits(s, 3, UNLOCKED, Peer(4, TIP_A3, TIP_A2, None))
    ensures Stage(net, t, 6) && Certified(FOUR, t.sys, Cert(2, A1)) && Grows(s, t) && CorrectTc(net, t, TC5)
    ensures Sits(t, 2, LAGGING, Saw(6, A2, 3)) && Sits(t, 3, UNLOCKED, Peer(6, TIP_A3, TIP_A2, None))
  {
    hide Reachable, Certified, Config.Valid, Leader, CorrectTc, Grows;
    FourLeaders(4);
    var s1 := TimesOut(net, s);
    var s2 := SignProposal(net, s1, SECOND, true);
    CertsStay(net, s1, s2);
    assert SECOND in s2.sent && RealTip(s2, Tip(Y0, 4));
    t := SignTimeout(net, s2, Timeout(0, 5, Report(TIP_Y0, None)), true);
    GrowsOn(s, s1, s2);
    GrowsOn(s, s2, t);
    CertsStay(net, s2, t);
    TimeoutsStay(s1, s2, t);
    Tc5IsCorrect(net, t);
  }

  lemma TimeoutsStay(s: Live, t: Live, u: Live)
    requires Grows(s, t) && Grows(t, u)
    ensures s.timeouts <= u.timeouts
  {
  }

  lemma SixthMaySend(net: Net, s: Live)
    requires Stage(net, s, 6) && Certified(FOUR, s.sys, Cert(2, A1)) && CorrectTc(net, s, TC5)
    requires Sits(s, 2, HOLDS_Y0, Saw(6, A2, 3).(held := Some(TC5)))
    ensures net.Valid() && MaySend(net, s, PY0) && InOrder(net, s, PY0)
  {
    hide CorrectTc, Leader, Config.Valid, Certified;
    FourLeaders(6);
    Y0Wins();
    assert ProposesOnTc(HOLDS_Y0, Saw(6, A2, 3).(held := Some(TC5)), PY0);
    hide TipWins, ProposesOnTc, KeepsWinner;
    TcMaySend(net, s, PY0);
  }

  /** View 6: validator 2 gets Y0 and proposes it again, and 3 follows. */
  lemma ViewSix(net: Net, s: Live) returns (t: Live)
    requires Stage(net, s, 6) && Certified(FOUR, s.sys, Cert(2, A1)) && CorrectTc(net, s, TC5)
    requires Sits(s, 2, LAGGING, Saw(6, A2, 3)) && Sits(s, 3, UNLOCKED, Peer(6, TIP_A3, TIP_A2, None))
    ensures Stage(net, t, 7) && Certified(FOUR, t.sys, Cert(6, Y0)) && Grows(s, t)
    ensures Sits(t, 2, LED_Y0, Peer(6, TIP_Y0, TIP_Y0, Some(TC5))) && Sits(t, 3, VOTED_Y0, Peer(6, TIP_Y0, TIP_Y0, None))
  {
    hide Reachable, Certified, IsQuorum, Config.Valid, Follows, VotesFor, MaySend, InOrder, InsertAndUpdate, Grows,
        CorrectTc,
      TipWins;
    Three(2, 3, 0);
    StepsY0();
    Y0Wins();
    var s1 := Fetch(net, s, 2, Y0, true);
    CertsStay(net, s, s1);
    TcStays(net, s, s1, TC5);
    var s2 := Hold(net, s1, 2, TC5, true);
    CertsStay(net, s1, s2);
    TcStays(net, s1, s2, TC5);
    SixthMaySend(net, s2);
    var s3 := LeadAgain(net, s2, PY0, LED_Y0, true);
    Stays(net, s2, s3, PY0);
    t := JoinRound(net, s3, PY0, 3, VOTED_Y0, 0, true);
    GrowsOn(s, s1, s2);
    GrowsOn(s, s2, s3);
    GrowsOn(s, s3, t);
  }

  /** View 7: validator 3 leads Y1, and 2 follows and commits Y0. */
  lemma ViewSeven(net: Net, s: Live) returns (t: Live)
    requires Stage(net, s, 7) && Certified(FOUR, s.sys, Cert(6, Y0))
    requires Sits(s, 2, LED_Y0, Peer(6, TIP_Y0, TIP_Y0, Some(TC5))) && Sits(s, 3, VOTED_Y0, Peer(6, TIP_Y0, TIP_Y0, None))
    ensures Stage(net, t, 8) && Grows(s, t) && Commit(2, Y0) in t.sys.commits
  {
    hide Reachable, Certified, IsQuorum, Config.Valid, Follows, VotesFor, MaySend, InOrder, InsertAndUpdate, Grows, TipWins,
      Update, LockClause;
    Three(3, 2, 0);
    StepsY1();
    var s1 := Enter(net, s, 3, Cert(6, Y0), true);
    CertsStay(net, s, s1);
    var s2 := Enter(net, s1, 2, Cert(6, Y0), true);
    CertsStay(net, s1, s2);
    NextMaySend(net, s2, PY1);
    var s3 := Lead(net, s2, PY1, LED_Y1, true);
    Stays(net, s2, s3, PY1);
    var s4 := JoinRound(net, s3, PY1, 2, VOTED_Y1, 0, true);
    t := Learn(net, s4, 2, Cert(7, Y1), true);
    GrowsOn(s, s1, s2);
    GrowsOn(s, s2, s3);
    GrowsOn(s, s3, s4);
    GrowsOn(s, s4, t);
  }

  /** Validator 1 learns that A3 is certified and commits A2. */
  lemma CommitsA2(net: Net, s: Live) returns (t: Live)
    requires Stage(net, s, 5) && Certified(FOUR, s.sys, Cert(2, A1)) && Certified(FOUR, s.sys, Cert(4, A3))
    requires s.sys.replicas[1] == VOTED_A3 && Sits(s, 2, LAGGING, Saw(3, A2, 3))
    requires Sits(s, 3, UNLOCKED, Peer(4, TIP_A3, TIP_A2, None))
    ensures Stage(net, t, 5) && Certified(FOUR, t.sys, Cert(2, A1)) && Commit(1, A2) in t.sys.commits
    ensures Sits(t, 2, LAGGING, Saw(3, A2, 3)) && Sits(t, 3, UNLOCKED, Peer(4, TIP_A3, TIP_A2, None))
  {
    hide Reachable, Certified, Config.Valid, Grows, Update, LockClause;
    StepsA3();
    t := Learn(net, s, 1, Cert(4, A3), true);
    CertsStay(net, s, t);
  }

  // ------------------------------------------------------------------ what it shows

  /** A run under all proposal rules in which an honest validator votes while locked below its block's justify. */
  lemma VotesUnlocked(epochLength: nat) returns (moves: seq<Move>)
    requires epochLength > 7
    ensures var net := Net(FOUR, epochLength);
      && net.Valid()
      && var s := Run(net, moves).sys;
      FOUR.Honest(3) && Vote(3, 4, A3) in s.votes && s.replicas[3].locked.view < A3.justifyView
  {
    var net, s := UpToViewFour(epochLength);
    var ms: seq<Move> :| Run(net, ms) == s;
    moves := ms;
  }

  /**
   Without the update condition agreement fails under all proposal rules, with a quarter of the
   power faulty and no vote in view 0: the vote cast after the failed update leaves its voter free to
   certify a sibling of what that vote helped commit.
   */
  lemma BreaksAgreement(epochLength: nat) returns (moves: seq<Move>)
    requires epochLength > 7
    ensures var net := Net(FOUR, epochLength);
      && net.Valid() && NoViewZero(FOUR, Run(net, moves).sys)
      && var s := Run(net, moves).sys;
      && Commit(1, A2) in s.commits && Commit(2, Y0) in s.commits && FOUR.Honest(1) && FOUR.Honest(2)
      && !Extends(A2, Y0) && !Extends(Y0, A2)
  {
    hide Certified, CorrectTc;
    var net, s := UpToViewFour(epochLength);
    var s1 := CommitsA2(net, s);
    var s2 := CollectsTc5(net, s1);
    var s3 := ViewSix(net, s2);
    var t := ViewSeven(net, s3);
    NothingInViewZero(net, t);
    hide NoViewZero;
    var ms: seq<Move> :| Run(net, ms) == t;
    moves := ms;
  }
}
