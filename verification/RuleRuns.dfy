/**
 Building runs that keep the proposal rules: what each move does to the one replica it concerns.
 */
module RuleRuns {
  import opened Options
  import opened Voting
  import opened VotingRuns
  import opened Agreement
  import opened LeaderSelection
  import opened ProposalRules

  /** Some run ends in `s`; unless `whole`, without a proposal sent whole. */
  ghost predicate Reachable(net: Net, s: Live, whole: bool) {
    net.Valid() && exists moves: seq<Move> :: Run(net, moves) == s && (whole || forall m | m in moves :: !m.GetFull?)
  }

  lemma StartIsReachable(net: Net)
    requires net.Valid()
    ensures Reachable(net, Start(net), false)
  {
    assert Run(net, []) == Start(net);
  }

  lemma Go(net: Net, s: Live, m: Move, whole: bool)
    requires Reachable(net, s, whole) && (whole || !m.GetFull?)
    ensures Shaped(net, s) && Reachable(net, Advance(net, s, m), whole)
  {
    var moves: seq<Move> :| Run(net, moves) == s && (whole || forall m | m in moves :: !m.GetFull?);
    assert (moves + [m])[..|moves|] == moves;
    assert Run(net, moves + [m]) == Advance(net, s, m);
  }

  /** Nothing is forgotten. */
  ghost predicate Grows(s: Live, t: Live) {
    s.sys.votes <= t.sys.votes && s.sys.commits <= t.sys.commits && s.timeouts <= t.timeouts && s.sent <= t.sent
  }

  lemma GrowsOn(s: Live, t: Live, u: Live)
    requires Grows(s, t) && Grows(t, u)
    ensures Grows(s, u)
  {
  }

  /** Only replica `at` changed, to `r` and `me`; a new frontier is recorded as a commit. */
  ghost predicate Becomes(s: Live, t: Live, at: Validator, r: Replica, me: Peer)
    requires at < |s.sys.replicas| && at < |s.peers|
  {
    && t.sys.replicas == s.sys.replicas[at := r] && t.peers == s.peers[at := me] && Grows(s, t)
    && (r.frontier.Some? && r.frontier != s.sys.replicas[at].frontier ==> Commit(at, r.frontier.value) in t.sys.commits)
  }

  // ------------------------------------------------------------------ one move

  function HeaderOf(p: Proposal): Header {
    Header(p.view, p.block, TcHighQc(p))
  }

  /** After the checks of a header. */
  function Checked(r: Replica, p: Proposal): Replica
    requires p.block.Node?
  {
    UpdateLocksOnly(r, Justify(p.block)).(awaiting := Some(HeaderOf(p)))
  }

  /** The proposal and every certificate in it are in order. */
  ghost predicate InOrder(net: Net, s: Live, p: Proposal) {
    && p.block.Node? && ValidCertificates(net, s, p)
    && Certified(net.cfg, s.sys, Justify(p.block)) && CertifiedOpt(net.cfg, s.sys, TcHighQc(p))
  }

  /** The replica is in the proposal's view and has received it. */
  ghost predicate Receives(net: Net, s: Live, at: Validator, p: Proposal)
    requires Shaped(net, s)
  {
    net.cfg.Honest(at) && p in s.sent && s.peers[at].view == p.view && InOrder(net, s, p)
  }

  /** The parent is at hand and the lock admits the block. */
  ghost predicate Admits(r: Replica, p: Proposal)
    requires p.block.Node?
  {
    && (Justify(p.block) == GENESIS_CERT || p.block.parent in r.tree)
    && SafeProposalLock(r, p.block, TcHighQc(p)) && !IsCommittedBlock(r, p.block)
  }

  lemma TakeHeader(net: Net, s: Live, at: Validator, p: Proposal, whole: bool) returns (t: Live)
    requires Reachable(net, s, whole) && Shaped(net, s) && Receives(net, s, at, p) && Admits(s.sys.replicas[at], p)
    ensures Reachable(net, t, whole)
    ensures Becomes(s, t, at, Checked(s.sys.replicas[at], p), s.peers[at].(next := TipOf(p)))
    ensures t.sys.votes == s.sys.votes && t.timeouts == s.timeouts && t.sent == s.sent
  {
    hide Certified, SafeProposalLock, IsCommittedBlock, ValidCertificates, PcToLock;
    Go(net, s, GetHeader(at, p), whole);
    t := Advance(net, s, GetHeader(at, p));
  }

  /** A body arrives, as a header's or by block sync. */
  lemma Fetch(net: Net, s: Live, at: Validator, b: Block, whole: bool) returns (t: Live)
    requires Reachable(net, s, whole) && Shaped(net, s) && net.cfg.Honest(at)
    requires b.Node? && Certified(net.cfg, s.sys, Justify(b))
    ensures Reachable(net, t, whole)
    ensures Becomes(s, t, at, InsertAndUpdate(s.sys.replicas[at], b), s.peers[at])
    ensures t.sys.votes == s.sys.votes && t.timeouts == s.timeouts && t.sent == s.sent
  {
    hide Certified, InsertAndUpdate;
    Go(net, s, GetBlock(at, b), whole);
    t := Advance(net, s, GetBlock(at, b));
  }

  lemma Cast(net: Net, s: Live, at: Validator, p: Proposal, whole: bool) returns (t: Live)
    requires Reachable(net, s, whole) && Shaped(net, s) && net.cfg.Honest(at) && p.block.Node?
    requires var r := s.sys.replicas[at];
      CanCast(r, p) && s.peers[at].view == p.view && s.peers[at].next == TipOf(p)
    ensures Reachable(net, t, whole)
    ensures Becomes(s, t, at, RecordVote(s.sys.replicas[at], p.view), s.peers[at].(tip := TipOf(p)))
    ensures t.sys.votes == s.sys.votes + {Vote(at, p.view, p.block)} && t.timeouts == s.timeouts && t.sent == s.sent
  {
    hide SafeProposalLock;
    Go(net, s, VoteHeader(at), whole);
    t := Advance(net, s, VoteHeader(at));
  }

  /** A whole proposal: insert, update, vote. */
  lemma Full(net: Net, s: Live, at: Validator, p: Proposal) returns (t: Live)
    requires Reachable(net, s, true) && Shaped(net, s) && Receives(net, s, at, p) && p.from in net.cfg.faulty
    requires Admits(s.sys.replicas[at], p) && MayVote(s.sys.replicas[at], p.view)
    ensures Reachable(net, t, true)
    ensures Becomes(s, t, at, RecordVote(InsertAndUpdate(s.sys.replicas[at], p.block), p.view),
                    s.peers[at].(tip := TipOf(p)))
    ensures t.sys.votes == s.sys.votes + {Vote(at, p.view, p.block)} && t.timeouts == s.timeouts && t.sent == s.sent
  {
    hide Certified, SafeProposalLock, IsCommittedBlock, ValidCertificates, InsertAndUpdate, TipWins;
    UpdateKeepsVoted(s.sys.replicas[at], p.block);
    Go(net, s, GetFull(at, p), true);
    t := Advance(net, s, GetFull(at, p));
  }

  lemma Learn(net: Net, s: Live, at: Validator, pc: Cert, whole: bool) returns (t: Live)
    requires Reachable(net, s, whole) && Shaped(net, s) && net.cfg.Honest(at) && Certified(net.cfg, s.sys, pc)
    requires pc.block in s.sys.replicas[at].tree && LockClause(s.sys.replicas[at], pc)
    ensures Reachable(net, t, whole)
    ensures Becomes(s, t, at, Update(s.sys.replicas[at], pc), s.peers[at])
    ensures t.sys.votes == s.sys.votes && t.timeouts == s.timeouts && t.sent == s.sent
  {
    hide Certified, Update, LockClause;
    Go(net, s, GetCert(at, pc), whole);
    t := Advance(net, s, GetCert(at, pc));
  }

  lemma Enter(net: Net, s: Live, at: Validator, pc: Cert, whole: bool) returns (t: Live)
    requires Reachable(net, s, whole) && Shaped(net, s) && net.cfg.Honest(at) && Certified(net.cfg, s.sys, pc)
    requires pc.view + 1 > s.peers[at].view
    ensures Reachable(net, t, whole)
    ensures var r := s.sys.replicas[at];
      Becomes(s, t, at, if pc.view > r.highest.view then r.(highest := pc) else r, s.peers[at].(view := pc.view + 1))
    ensures t.sys.votes == s.sys.votes && t.timeouts == s.timeouts && t.sent == s.sent
  {
    hide Certified;
    Go(net, s, EnterByCert(at, pc), whole);
    t := Advance(net, s, EnterByCert(at, pc));
  }

  lemma Hold(net: Net, s: Live, at: Validator, tc: TimeoutCert, whole: bool) returns (t: Live)
    requires Reachable(net, s, whole) && Shaped(net, s) && net.cfg.Honest(at) && CorrectTc(net, s, tc)
    requires s.peers[at].held.None? || tc.view > s.peers[at].held.value.view
    ensures Reachable(net, t, whole)
    ensures var me := s.peers[at];
      Becomes(s, t, at, s.sys.replicas[at],
              me.(held := Some(tc), view := if tc.view + 1 > me.view then tc.view + 1 else me.view))
    ensures t.sys == s.sys && t.timeouts == s.timeouts && t.sent == s.sent
  {
    hide CorrectTc;
    Go(net, s, GetTimeoutCert(at, tc), whole);
    t := Advance(net, s, GetTimeoutCert(at, tc));
  }

  lemma Expire(net: Net, s: Live, at: Validator, whole: bool) returns (t: Live)
    requires Reachable(net, s, whole) && Shaped(net, s) && net.cfg.Honest(at)
    ensures Reachable(net, t, whole)
    ensures var r, me := s.sys.replicas[at], s.peers[at];
      && Becomes(s, t, at, r, me.(view := if net.EpochChange(me.view) then me.view else me.view + 1))
      && Timeout(at, me.view, ReportOf(r, me)) in t.timeouts
    ensures t.sys == s.sys && t.sent == s.sent
  {
    Go(net, s, TimeOut(at), whole);
    t := Advance(net, s, TimeOut(at));
  }

  // ------------------------------------------------------------------ what the faulty do

  ghost predicate SameReplicas(s: Live, t: Live) {
    t.sys.replicas == s.sys.replicas && t.peers == s.peers && Grows(s, t)
  }

  lemma VoteAlong(net: Net, s: Live, vote: Vote, whole: bool) returns (t: Live)
    requires Reachable(net, s, whole) && Shaped(net, s) && vote.voter in net.cfg.faulty && vote.block.Node?
    ensures Reachable(net, t, whole) && SameReplicas(s, t)
    ensures t.sys.votes == s.sys.votes + {vote} && t.timeouts == s.timeouts && t.sent == s.sent
  {
    Go(net, s, VoteAnyhow(vote), whole);
    t := Advance(net, s, VoteAnyhow(vote));
  }

  lemma SignTimeout(net: Net, s: Live, to: Timeout, whole: bool) returns (t: Live)
    requires Reachable(net, s, whole) && Shaped(net, s) && to.signer in net.cfg.faulty
    requires CertifiedOpt(net.cfg, s.sys, to.report.qc)
    requires to.report.tip.Some? ==> to.report.tip.value.view <= to.view && RealTip(s, to.report.tip.value)
    ensures Reachable(net, t, whole) && SameReplicas(s, t)
    ensures to in t.timeouts && t.sys == s.sys && t.sent == s.sent
  {
    hide CertifiedOpt, RealTip;
    Go(net, s, FaultyTimeout(to), whole);
    t := Advance(net, s, FaultyTimeout(to));
  }

  lemma SignProposal(net: Net, s: Live, p: Proposal, whole: bool) returns (t: Live)
    requires Reachable(net, s, whole) && Shaped(net, s) && p.from in net.cfg.faulty && p.from < |net.cfg.powers|
    requires p.block.Node? && p.from == Leader(net.cfg.powers, p.view)
    ensures Reachable(net, t, whole) && SameReplicas(s, t)
    ensures t.sent == s.sent + {p} && t.sys == s.sys && t.timeouts == s.timeouts
  {
    hide Leader;
    Go(net, s, Send(p), whole);
    t := Advance(net, s, Send(p));
  }

  // ------------------------------------------------------------------ whole rounds

  lemma Stays(net: Net, s: Live, t: Live, p: Proposal)
    requires Grows(s, t) && InOrder(net, s, p)
    ensures InOrder(net, t, p)
  {
    CertifiedMonotone(net.cfg, s.sys, t.sys, Justify(p.block));
    if p.tc.Some? && p.tc.value.highQc.Some? { CertifiedMonotone(net.cfg, s.sys, t.sys, p.tc.value.highQc.value); }
  }

  lemma CertsStay(net: Net, s: Live, t: Live)
    requires Grows(s, t)
    ensures forall pc | Certified(net.cfg, s.sys, pc) :: Certified(net.cfg, t.sys, pc)
  {
    forall pc | Certified(net.cfg, s.sys, pc) ensures Certified(net.cfg, t.sys, pc) {
      CertifiedMonotone(net.cfg, s.sys, t.sys, pc);
    }
  }

  /** Once its block is in the tree, a checked header can be voted for. */
  ghost predicate CanCast(r: Replica, p: Proposal)
    requires p.block.Node?
  {
    && r.awaiting == Some(HeaderOf(p)) && p.block in r.tree && MayVote(r, p.view)
    && SafeProposalLock(r, p.block, TcHighQc(p))
  }

  /** Checking the header, getting the body and voting take a replica from `r` to `after`. */
  ghost predicate Follows(r: Replica, p: Proposal, after: Replica)
    requires p.block.Node?
  {
    var checked := Checked(r, p);
    var stored := InsertAndUpdate(checked, p.block);
    && Admits(r, p) && checked.frontier == r.frontier && CanCast(stored, p) && after == RecordVote(stored, p.view)
  }

  /** Checking the header of a block at hand and voting take a replica from `r` to `after`. */
  ghost predicate VotesFor(r: Replica, p: Proposal, after: Replica)
    requires p.block.Node?
  {
    var checked := Checked(r, p);
    Admits(r, p) && checked.frontier == r.frontier && CanCast(checked, p) && after == RecordVote(checked, p.view)
  }

  /** A replica checks a header, gets its body and votes. */
  lemma Follow(net: Net, s: Live, at: Validator, p: Proposal, after: Replica, whole: bool) returns (t: Live)
    requires Reachable(net, s, whole) && Shaped(net, s) && Receives(net, s, at, p) && Follows(s.sys.replicas[at], p, after)
    ensures Reachable(net, t, whole) && Becomes(s, t, at, after, s.peers[at].(next := TipOf(p), tip := TipOf(p)))
    ensures t.sys.votes == s.sys.votes + {Vote(at, p.view, p.block)} && t.timeouts == s.timeouts && t.sent == s.sent
  {
    hide Certified, SafeProposalLock, Admits, ValidCertificates, InsertAndUpdate, Checked, Reachable, MayVote, TipWins;
    var s1 := TakeHeader(net, s, at, p, whole);
    Stays(net, s, s1, p);
    var s2 := Fetch(net, s1, at, p.block, whole);
    t := Cast(net, s2, at, p, whole);
  }

  /** A replica that holds a block checks its header and votes. */
  lemma SelfVote(net: Net, s: Live, at: Validator, p: Proposal, after: Replica, whole: bool) returns (t: Live)
    requires Reachable(net, s, whole) && Shaped(net, s) && Receives(net, s, at, p) && VotesFor(s.sys.replicas[at], p, after)
    ensures Reachable(net, t, whole) && Becomes(s, t, at, after, s.peers[at].(next := TipOf(p), tip := TipOf(p)))
    ensures t.sys.votes == s.sys.votes + {Vote(at, p.view, p.block)} && t.timeouts == s.timeouts && t.sent == s.sent
  {
    hide Certified, SafeProposalLock, Admits, ValidCertificates, Checked, Reachable, MayVote, TipWins;
    var s1 := TakeHeader(net, s, at, p, whole);
    t := Cast(net, s1, at, p, whole);
  }

  /** An honest leader may send `p`. */
  ghost predicate MaySend(net: Net, s: Live, p: Proposal)
    requires net.Valid() && Shaped(net, s)
  {
    && net.cfg.Honest(p.from) && p.block.Node? && p.from == Leader(net.cfg.powers, p.view)
    && p.view == s.peers[p.from].view && HonestProposal(s, p) && InOrder(net, s, p)
  }

  /** A proposal without a timeout certificate, justified by the view before or by genesis. */
  lemma PlainInOrder(net: Net, s: Live, p: Proposal)
    requires p.tc.None? && p.block.Node? && CarriesRequired(p) && Certified(net.cfg, s.sys, Justify(p.block))
    ensures InOrder(net, s, p) && !Reproposes(p) && TipOf(p) == Some(Tip(p.block, p.view))
  {
  }

  lemma PlainMaySend(net: Net, s: Live, p: Proposal)
    requires net.Valid() && Shaped(net, s) && net.cfg.Honest(p.from) && p.from == Leader(net.cfg.powers, p.view)
    requires p.tc.None? && p.block.Node? && Certified(net.cfg, s.sys, Justify(p.block))
    requires p.view == s.peers[p.from].view && p.view > 0 && forall q | q in s.sent :: q.view < p.view
    requires Justify(p.block) == GENESIS_CERT || p.block.parent in s.sys.replicas[p.from].tree
    requires ProposesOnCert(s.sys.replicas[p.from], s.peers[p.from], p)
    ensures MaySend(net, s, p) && !Reproposes(p) && TipOf(p) == Some(Tip(p.block, p.view))
  {
    PlainInOrder(net, s, p);
  }

  /** A proposal through the timeout certificate its leader holds. */
  lemma TcMaySend(net: Net, s: Live, p: Proposal)
    requires net.Valid() && Shaped(net, s) && net.cfg.Honest(p.from) && p.from == Leader(net.cfg.powers, p.view)
    requires p.tc.Some? && p.tc.value.view + 1 == p.view && CorrectTc(net, s, p.tc.value)
    requires p.block.Node? && KeepsWinner(p) && Certified(net.cfg, s.sys, Justify(p.block))
    requires p.view == s.peers[p.from].view && forall q | q in s.sent :: q.view < p.view
    requires Justify(p.block) == GENESIS_CERT || p.block.parent in s.sys.replicas[p.from].tree
    requires ProposesOnTc(s.sys.replicas[p.from], s.peers[p.from], p)
    ensures MaySend(net, s, p) && InOrder(net, s, p)
  {
    hide Leader, KeepsWinner, ProposesOnTc, Certified, SummariesSigned, IsQuorum, RealTip;
  }

  lemma SendFresh(net: Net, s: Live, p: Proposal, whole: bool) returns (t: Live)
    requires Reachable(net, s, whole) && Shaped(net, s) && MaySend(net, s, p) && !Reproposes(p)
    ensures Reachable(net, t, whole)
    ensures Becomes(s, t, p.from, InsertAndUpdate(s.sys.replicas[p.from], p.block), s.peers[p.from])
    ensures t.sys.votes == s.sys.votes && t.timeouts == s.timeouts && t.sent == s.sent + {p}
  {
    hide Certified, ValidCertificates, InsertAndUpdate, HonestProposal, Leader, TipWins;
    Go(net, s, Send(p), whole);
    t := Advance(net, s, Send(p));
  }

  lemma SendAgain(net: Net, s: Live, p: Proposal, whole: bool) returns (t: Live)
    requires Reachable(net, s, whole) && Shaped(net, s) && MaySend(net, s, p) && Reproposes(p)
    ensures Reachable(net, t, whole) && SameReplicas(s, t)
    ensures t.sys.votes == s.sys.votes && t.timeouts == s.timeouts && t.sent == s.sent + {p}
  {
    hide Certified, ValidCertificates, HonestProposal, Leader, TipWins;
    Go(net, s, Send(p), whole);
    t := Advance(net, s, Send(p));
  }

  /** An honest leader inserts a fresh block, sends its header and votes for it. */
  lemma Lead(net: Net, s: Live, p: Proposal, after: Replica, whole: bool) returns (t: Live)
    requires Reachable(net, s, whole) && Shaped(net, s) && MaySend(net, s, p) && !Reproposes(p)
    requires VotesFor(InsertAndUpdate(s.sys.replicas[p.from], p.block), p, after)
    ensures Reachable(net, t, whole)
    ensures Becomes(s, t, p.from, after, s.peers[p.from].(next := TipOf(p), tip := TipOf(p)))
    ensures t.sys.votes == s.sys.votes + {Vote(p.from, p.view, p.block)} && t.timeouts == s.timeouts
    ensures t.sent == s.sent + {p}
  {
    hide InOrder, InsertAndUpdate, HonestProposal, Leader, TipWins, Reachable, Admits, Checked, CanCast;
    var s1 := SendFresh(net, s, p, whole);
    Stays(net, s, s1, p);
    t := SelfVote(net, s1, p.from, p, after, whole);
  }

  /** An honest leader proposes the winning tip again, from its tree, and votes for it. */
  lemma LeadAgain(net: Net, s: Live, p: Proposal, after: Replica, whole: bool) returns (t: Live)
    requires Reachable(net, s, whole) && Shaped(net, s) && MaySend(net, s, p) && Reproposes(p)
    requires VotesFor(s.sys.replicas[p.from], p, after)
    ensures Reachable(net, t, whole)
    ensures Becomes(s, t, p.from, after, s.peers[p.from].(next := TipOf(p), tip := TipOf(p)))
    ensures t.sys.votes == s.sys.votes + {Vote(p.from, p.view, p.block)} && t.timeouts == s.timeouts
    ensures t.sent == s.sent + {p}
  {
    hide InOrder, HonestProposal, Leader, TipWins, Reachable, Admits, Checked, CanCast;
    var s1 := SendAgain(net, s, p, whole);
    Stays(net, s, s1, p);
    t := SelfVote(net, s1, p.from, p, after, whole);
  }

  // ------------------------------------------------------------------ rounds that certify

  lemma CertifiedBy(cfg: Config, sys: System, pc: Cert, voters: set<Validator>)
    requires pc.block.Node? && IsQuorum(cfg.powers, voters)
    requires forall v | v in voters :: Vote(v, pc.view, pc.block) in sys.votes
    ensures Certified(cfg, sys, pc)
  {
    forall v | v in voters ensures v in Voters(sys, pc) {
      assert Vote(v, pc.view, pc.block) in sys.votes;
    }
    PowerMonotone(cfg.powers, voters, Voters(sys, pc), |cfg.powers|);
  }

  function Took(me: Peer, p: Proposal): Peer {
    me.(next := TipOf(p), tip := TipOf(p))
  }

  /** A faulty leader's block is certified by one honest vote and a faulty one. */
  lemma FaultyRound(net: Net, s: Live, p: Proposal, at: Validator, after: Replica, helper: Validator, whole: bool)
    returns (t: Live)
    requires Reachable(net, s, whole) && Shaped(net, s) && p.from in net.cfg.faulty && p.from < |net.cfg.powers|
    requires p.block.Node? && p.from == Leader(net.cfg.powers, p.view) && InOrder(net, s, p)
    requires net.cfg.Honest(at) && s.peers[at].view == p.view && Follows(s.sys.replicas[at], p, after)
    requires helper in net.cfg.faulty && IsQuorum(net.cfg.powers, {at, helper})
    ensures Reachable(net, t, whole) && Shaped(net, t) && Becomes(s, t, at, after, Took(s.peers[at], p))
    ensures t.sys.votes == s.sys.votes + {Vote(at, p.view, p.block), Vote(helper, p.view, p.block)}
    ensures t.timeouts == s.timeouts && t.sent == s.sent + {p} && Certified(net.cfg, t.sys, Cert(p.view, p.block))
  {
    hide Leader, Reachable, Follows, Certified, InOrder, IsQuorum, TipWins;
    var s1 := SignProposal(net, s, p, whole);
    Stays(net, s, s1, p);
    var s2 := Follow(net, s1, at, p, after, whole);
    t := VoteAlong(net, s2, Vote(helper, p.view, p.block), whole);
    CertifiedBy(net.cfg, t.sys, Cert(p.view, p.block), {at, helper});
  }

  /** An honest leader's block is certified by its own vote and a faulty one. */
  lemma LoneRound(net: Net, s: Live, p: Proposal, after: Replica, helper: Validator, whole: bool) returns (t: Live)
    requires Reachable(net, s, whole) && Shaped(net, s) && MaySend(net, s, p) && !Reproposes(p)
    requires VotesFor(InsertAndUpdate(s.sys.replicas[p.from], p.block), p, after)
    requires helper in net.cfg.faulty && IsQuorum(net.cfg.powers, {p.from, helper})
    ensures Reachable(net, t, whole) && Shaped(net, t) && Becomes(s, t, p.from, after, Took(s.peers[p.from], p))
    ensures t.sys.votes == s.sys.votes + {Vote(p.from, p.view, p.block), Vote(helper, p.view, p.block)}
    ensures t.timeouts == s.timeouts && t.sent == s.sent + {p} && Certified(net.cfg, t.sys, Cert(p.view, p.block))
  {
    assert p.block.Node?;
    hide Leader, Reachable, VotesFor, Certified, MaySend, IsQuorum, TipWins, InsertAndUpdate;
    var s1 := Lead(net, s, p, after, whole);
    t := VoteAlong(net, s1, Vote(helper, p.view, p.block), whole);
    CertifiedBy(net.cfg, t.sys, Cert(p.view, p.block), {p.from, helper});
  }

  /** A sent header is followed by one more honest replica, and certified with a faulty vote. */
  lemma JoinRound(net: Net, s: Live, p: Proposal, at: Validator, after: Replica, helper: Validator, whole: bool)
    returns (t: Live)
    requires Reachable(net, s, whole) && Shaped(net, s) && Receives(net, s, at, p) && Follows(s.sys.replicas[at], p, after)
    requires Vote(p.from, p.view, p.block) in s.sys.votes
    requires helper in net.cfg.faulty && IsQuorum(net.cfg.powers, {p.from, at, helper})
    ensures Reachable(net, t, whole) && Shaped(net, t) && Becomes(s, t, at, after, Took(s.peers[at], p))
    ensures t.sys.votes == s.sys.votes + {Vote(at, p.view, p.block), Vote(helper, p.view, p.block)}
    ensures t.timeouts == s.timeouts && t.sent == s.sent && Certified(net.cfg, t.sys, Cert(p.view, p.block))
  {
    assert p.block.Node?;
    hide Reachable, Follows, Certified, InOrder, IsQuorum, TipWins;
    var s1 := Follow(net, s, at, p, after, whole);
    t := VoteAlong(net, s1, Vote(helper, p.view, p.block), whole);
    CertifiedBy(net.cfg, t.sys, Cert(p.view, p.block), {p.from, at, helper});
  }
}
