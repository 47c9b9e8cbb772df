/**
 What an honest leader proposes is what honest voters accept: every proposal it ever sent passes the
 voters' checks of certificates, in the state it is sent in and in every later one.
 */
module LeaderRules {
  import opened Options
  import opened Voting
  import opened VotingRuns
  import opened Agreement
  import opened LeaderSelection
  import opened ProposalRules

  /** A replica's highest certificate and the justify of every block in its tree are correct. */
  ghost predicate Known(cfg: Config, s: System, r: Replica) {
    Certified(cfg, s, r.highest) && TreeInv(cfg, s, r.tree)
  }

  ghost predicate AllKnown(cfg: Config, s: System) {
    |s.replicas| == |cfg.powers| && forall i: Validator | cfg.Honest(i) :: Known(cfg, s, s.replicas[i])
  }

  lemma KnownStays(cfg: Config, s: System, t: System, r: Replica)
    requires s.votes <= t.votes && Known(cfg, s, r)
    ensures Known(cfg, t, r)
  {
    hide Certified;
    CertifiedMonotone(cfg, s, t, r.highest);
    forall b | b in r.tree ensures Certified(cfg, t, Justify(b)) { CertifiedMonotone(cfg, s, t, Justify(b)); }
  }

  /** An update learns at most the certificate it is given, and no block. */
  lemma UpdateLearns(r: Replica, pc: Cert)
    ensures var u := Update(r, pc); u.tree == r.tree && (u.highest == r.highest || u.highest == pc)
  {
    hide UpdateFails, BlockToCommit, CommitConnects, PcToLock;
  }

  /** What a step can leave in a replica's tree and as its highest certificate. */
  lemma StepLearns(cfg: Config, s: System, l: Label, i: Validator)
    requires |s.replicas| == |cfg.powers| && cfg.Honest(i)
    ensures var r, u := s.replicas[i], Step(cfg, s, l).replicas[i];
      && (u.highest == r.highest || Certified(cfg, s, u.highest))
      && (forall b | b in u.tree :: b in r.tree || (b.Node? && Certified(cfg, s, Justify(b))))
  {
    hide Certified, SafeProposalLock, IsCommittedBlock, Update, PcToLock;
    var r := s.replicas[i];
    if l.OnProposal? && l.block.Node? { UpdateLearns(r.(tree := r.tree + {l.block}), Justify(l.block)); }
    if l.InsertBlock? && l.block.Node? { UpdateLearns(r.(tree := r.tree + {l.block}), Justify(l.block)); }
    if l.ApplyCert? { UpdateLearns(r, l.pc); }
  }

  lemma StepKeepsShape(cfg: Config, s: System, l: Label)
    requires |s.replicas| == |cfg.powers|
    ensures |Step(cfg, s, l).replicas| == |cfg.powers|
  {
    hide Certified, SafeProposalLock, IsCommittedBlock, InsertAndUpdate, Update, UpdateLocksOnly;
  }

  lemma StepKeepsKnown(cfg: Config, s: System, l: Label)
    requires AllKnown(cfg, s)
    ensures AllKnown(cfg, Step(cfg, s, l))
  {
    hide Certified, Step;
    var t := Step(cfg, s, l);
    StepKeepsShape(cfg, s, l);
    StepGrows(cfg, s, l);
    forall i: Validator | cfg.Honest(i) ensures Known(cfg, t, t.replicas[i]) {
      StepLearns(cfg, s, l, i);
      assert Known(cfg, s, s.replicas[i]);
      KnownStays(cfg, s, t, t.replicas[i]);
    }
  }

  // ------------------------------------------------------------------ timeout certificates held

  ghost predicate Later(s: Live, t: Live) {
    s.sys.votes <= t.sys.votes && s.timeouts <= t.timeouts && s.sent <= t.sent
  }

  lemma MoveGrows(net: Net, s: Live, m: Move)
    requires net.Valid() && Shaped(net, s)
    ensures Later(s, Advance(net, s, m))
  {
    hide Step, Enabled;
    if LabelOf(net, m).Some? { StepGrows(net.cfg, s.sys, LabelOf(net, m).value); }
  }

  lemma TcStaysCorrect(net: Net, s: Live, t: Live, tc: TimeoutCert)
    requires Later(s, t) && CorrectTc(net, s, tc)
    ensures CorrectTc(net, t, tc)
  {
    hide Certified, IsQuorum, SummariesSigned;
    if tc.highQc.Some? { CertifiedMonotone(net.cfg, s.sys, t.sys, tc.highQc.value); }
  }

  /** Every timeout certificate an honest replica holds is correct. */
  ghost predicate HeldCorrect(net: Net, s: Live) {
    forall i: Validator | net.cfg.Honest(i) && i < |s.peers| && s.peers[i].held.Some? ::
      CorrectTc(net, s, s.peers[i].held.value)
  }

  lemma MoveKeepsHeld(net: Net, s: Live, m: Move)
    requires net.Valid() && Shaped(net, s) && HeldCorrect(net, s)
    ensures HeldCorrect(net, Advance(net, s, m))
  {
    hide CorrectTc, SysAfter, HonestProposal, ValidCertificates, Leader, Certified;
    var t := Advance(net, s, m);
    MoveGrows(net, s, m);
    forall i: Validator | net.cfg.Honest(i) && i < |t.peers| && t.peers[i].held.Some?
      ensures CorrectTc(net, t, t.peers[i].held.value)
    {
      var held := t.peers[i].held;
      assert held == s.peers[i].held || (m.GetTimeoutCert? && CorrectTc(net, s, m.tc) && held == Some(m.tc));
      TcStaysCorrect(net, s, t, t.peers[i].held.value);
    }
  }

  // ------------------------------------------------------------------ proposals sent

  /** The proposal passes a voter's checks of certificates. */
  ghost predicate Acceptable(net: Net, s: Live, p: Proposal) {
    ValidCertificates(net, s, p) && Certified(net.cfg, s.sys, Justify(p.block))
  }

  lemma AcceptableStays(net: Net, s: Live, t: Live, p: Proposal)
    requires Later(s, t) && Acceptable(net, s, p)
    ensures Acceptable(net, t, p)
  {
    hide CorrectTc, Certified;
    CertifiedMonotone(net.cfg, s.sys, t.sys, Justify(p.block));
    if p.tc.Some? { TcStaysCorrect(net, s, t, p.tc.value); }
  }

  /** By the certificate of the view before, or through the timeout certificate it holds, the proposal is in order. */
  lemma ProposalIsAcceptable(net: Net, s: Live, p: Proposal)
    requires Shaped(net, s) && AllKnown(net.cfg, s.sys) && HeldCorrect(net, s)
    requires p.block.Node? && net.cfg.Honest(p.from) && HonestProposal(s, p)
    ensures Acceptable(net, s, p)
  {
    hide CorrectTc, Certified;
    var r, me := s.sys.replicas[p.from], s.peers[p.from];
    assert Known(net.cfg, s.sys, r);
    if ProposesOnTc(r, me, p) {
      assert CorrectTc(net, s, me.held.value);
      HighCertIsCorrect(net, s, me.held.value);
    }
  }

  lemma HighCertIsCorrect(net: Net, s: Live, tc: TimeoutCert)
    requires CorrectTc(net, s, tc)
    ensures tc.highQc.Some? ==> Certified(net.cfg, s.sys, tc.highQc.value)
  {
  }

  ghost predicate SentAcceptable(net: Net, s: Live) {
    forall p | p in s.sent && net.cfg.Honest(p.from) :: p.block.Node? && Acceptable(net, s, p)
  }

  ghost predicate LeaderInv(net: Net, s: Live) {
    AllKnown(net.cfg, s.sys) && HeldCorrect(net, s) && SentAcceptable(net, s)
  }

  lemma MoveKeepsSentAcceptable(net: Net, s: Live, m: Move)
    requires net.Valid() && Shaped(net, s) && LeaderInv(net, s)
    ensures SentAcceptable(net, Advance(net, s, m))
  {
    hide AllKnown, HeldCorrect, Acceptable, HonestProposal, Leader, SysAfter, ValidCertificates, CorrectTc, Certified;
    var t := Advance(net, s, m);
    MoveGrows(net, s, m);
    forall p | p in t.sent && net.cfg.Honest(p.from) ensures p.block.Node? && Acceptable(net, t, p) {
      if p !in s.sent { ProposalIsAcceptable(net, s, p); }
      AcceptableStays(net, s, t, p);
    }
  }

  lemma {:induction false} RunKeepsLeaderInv(net: Net, moves: seq<Move>)
    requires net.Valid()
    ensures LeaderInv(net, Run(net, moves))
  {
    if moves == [] {
      assert forall i: Validator | net.cfg.Honest(i) :: Run(net, []).sys.replicas[i] == FRESH_REPLICA;
    } else {
      hide AllKnown, HeldCorrect, SentAcceptable, Enabled, Step;
      var s, m := Run(net, moves[..|moves| - 1]), moves[|moves| - 1];
      RunKeepsLeaderInv(net, moves[..|moves| - 1]);
      MoveKeepsSentAcceptable(net, s, m);
      MoveKeepsHeld(net, s, m);
      if LabelOf(net, m).Some? { StepKeepsKnown(net.cfg, s.sys, LabelOf(net, m).value); }
    }
  }

  /**
   In every run, the header an honest leader has sent is taken up by every honest replica that is in
   its view and has the parent at hand: the voters' checks never turn it away.
   */
  lemma HonestProposalsAreAccepted(net: Net, moves: seq<Move>, p: Proposal, at: Validator)
    requires net.Valid() && p in Run(net, moves).sent && net.cfg.Honest(p.from) && net.cfg.Honest(at)
    ensures p.block.Node? && Acceptable(net, Run(net, moves), p)
    ensures var s := Run(net, moves);
      Enabled(net, s, GetHeader(at, p)) <==>
      s.peers[at].view == p.view && (Justify(p.block) == GENESIS_CERT || p.block.parent in s.sys.replicas[at].tree)
  {
    hide Run, ValidCertificates;
    RunKeepsLeaderInv(net, moves);
  }
}
