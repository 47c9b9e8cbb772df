/**
 The rules a proposal passes before any vote: who leads a view, which certificate a leader proposes
 on, the timeout certificate a proposal carries, and the tip or certificate that wins in it. Runs
 that keep them are runs of the unrestricted voters.
 */
module ProposalRules {
  import opened Options
  import opened Voting
  import opened VotingRuns
  import opened Agreement
  import opened LeaderSelection

  /** The header of a fresh proposal, as a voter for it reports it. */
  datatype Tip = Tip(block: Block, view: nat)

  /** What a timeout vote signs besides its view: the voter's tip and its highest certificate. */
  datatype Report = Report(tip: Option<Tip>, qc: Option<Cert>)

  datatype Timeout = Timeout(signer: Validator, view: nat, report: Report)

  datatype TimeoutCert = TimeoutCert(view: nat, reports: map<Validator, Report>, highTip: Option<Tip>,
      highQc: Option<Cert>)

  datatype Proposal = Proposal(from: Validator, view: nat, block: Block, tc: Option<TimeoutCert>)

  datatype Net = Net(cfg: Config, epochLength: nat) {
    /** A view that is left only with a certificate. */
    predicate EpochChange(view: nat) {
      epochLength > 0 && view % epochLength == 0
    }

    /** Less than a third of the power is faulty, so there is some. */
    predicate Valid() {
      cfg.Valid()
    }
  }

  /** A replica's view, tip, the tip a vote on the awaited header would set, and its timeout certificate. */
  datatype Peer = Peer(view: nat, tip: Option<Tip>, next: Option<Tip>, held: Option<TimeoutCert>)

  datatype Live = Live(sys: System, peers: seq<Peer>, timeouts: set<Timeout>, sent: set<Proposal>)

  datatype Move =
    | Send(proposal: Proposal)
    | GetFull(at: Validator, proposal: Proposal)
    | GetHeader(at: Validator, proposal: Proposal)
    | VoteHeader(at: Validator)
    | GetBlock(at: Validator, block: Block)
    | GetCert(at: Validator, pc: Cert)
    | EnterByCert(at: Validator, pc: Cert)
    | GetTimeoutCert(at: Validator, tc: TimeoutCert)
    | TimeOut(at: Validator)
    | FaultyTimeout(timeout: Timeout)
    | VoteAnyhow(vote: Vote)

  // ------------------------------------------------------------------ timeout certificates

  /** The tip is a header the leader of its view signed. */
  predicate RealTip(s: Live, tip: Tip) {
    exists p :: p in s.sent && p.view == tip.view && p.block == tip.block
  }

  /** The high tip is a newest tip among the signers', the high certificate a highest one. */
  predicate SummariesSigned(tc: TimeoutCert) {
    && (forall v | v in tc.reports && tc.reports[v].tip.Some? ::
          tc.highTip.Some? && tc.reports[v].tip.value.view <= tc.highTip.value.view)
    && (tc.highTip.Some? ==>
          && tc.highTip.value.view <= tc.view
          && exists v :: v in tc.reports && tc.reports[v].tip == tc.highTip)
    && (forall v | v in tc.reports && tc.reports[v].qc.Some? ::
          tc.highQc.Some? && tc.reports[v].qc.value.view <= tc.highQc.value.view)
    && (tc.highQc.Some? ==> exists v :: v in tc.reports && tc.reports[v].qc == tc.highQc)
  }

  predicate CorrectTc(net: Net, s: Live, tc: TimeoutCert) {
    && IsQuorum(net.cfg.powers, tc.reports.Keys)
    && (forall v | v in tc.reports :: Timeout(v, tc.view, tc.reports[v]) in s.timeouts)
    && SummariesSigned(tc)
    && (tc.highTip.Some? ==> RealTip(s, tc.highTip.value))
    && CertifiedOpt(net.cfg, s.sys, tc.highQc)
  }

  /** The tip wins if it is newer than the high certificate and justified at least as high. */
  predicate TipWins(tc: TimeoutCert) {
    tc.highTip.Some? && (tc.highQc.Some? ==>
      var tip, qc := tc.highTip.value, tc.highQc.value;
      tip.view > qc.view && tip.block.Node? && tip.block.justifyView >= qc.view)
  }

  // ------------------------------------------------------------------ what a voter checks

  /** The justify or the timeout certificate is of the view before; a genesis justify always serves. */
  predicate CarriesRequired(p: Proposal)
    requires p.block.Node?
  {
    || p.block.justifyView + 1 == p.view || Justify(p.block) == GENESIS_CERT
    || (p.tc.Some? && p.tc.value.view + 1 == p.view)
  }

  /** A winning tip is proposed again; a winning certificate is not dropped. */
  predicate KeepsWinner(p: Proposal)
    requires p.block.Node? && p.tc.Some?
  {
    var tc := p.tc.value;
    if TipWins(tc) then tc.highTip.value.block == p.block
    else tc.highQc.Some? ==> p.block.justifyView >= tc.highQc.value.view || p.block == tc.highQc.value.block
  }

  predicate ValidCertificates(net: Net, s: Live, p: Proposal) {
    && p.block.Node? && CarriesRequired(p)
    && (p.tc.Some? ==> p.tc.value.view + 1 == p.view && KeepsWinner(p) && CorrectTc(net, s, p.tc.value))
  }

  function TcHighQc(p: Proposal): Option<Cert> {
    if p.tc.Some? then p.tc.value.highQc else None
  }

  predicate Reproposes(p: Proposal) {
    p.tc.Some? && TipWins(p.tc.value)
  }

  /** The tip a vote for this proposal sets: the proposal's own header, or the tip proposed again. */
  function TipOf(p: Proposal): Option<Tip> {
    if Reproposes(p) then p.tc.value.highTip else Some(Tip(p.block, p.view))
  }

  // ------------------------------------------------------------------ what a leader does

  predicate HoldsTc(me: Peer, view: nat) {
    me.held.Some? && me.held.value.view + 1 == view
  }

  predicate OnPreviousView(r: Replica, view: nat) {
    r.highest != GENESIS_CERT && r.highest.view + 1 == view
  }

  /** With the certificate of the view before, or from genesis with no timeout certificate for it. */
  predicate ProposesOnCert(r: Replica, me: Peer, p: Proposal)
    requires p.block.Node?
  {
    && p.tc.None? && Justify(p.block) == r.highest
    && (OnPreviousView(r, p.view) || (r.highest == GENESIS_CERT && !HoldsTc(me, p.view)))
  }

  /** Otherwise through the timeout certificate: the winning tip again, or on the highest certificate. */
  predicate ProposesOnTc(r: Replica, me: Peer, p: Proposal)
    requires p.block.Node?
  {
    && !OnPreviousView(r, p.view) && HoldsTc(me, p.view) && p.tc == me.held
    && var tc := p.tc.value;
    if TipWins(tc) then tc.highTip.value.block == p.block && p.block in r.tree
    else Justify(p.block) ==
         if tc.highQc.Some? && tc.highQc.value.view > r.highest.view then tc.highQc.value else r.highest
  }

  /** An honest leader proposes in its current view, never in view 0, once, and with the parent at hand. */
  predicate HonestProposal(s: Live, p: Proposal)
    requires p.block.Node? && p.from < |s.peers| && p.from < |s.sys.replicas|
  {
    var r, me := s.sys.replicas[p.from], s.peers[p.from];
    && p.view == me.view && p.view > 0
    && (forall q | q in s.sent && q.from == p.from :: q.view < p.view)
    && (Justify(p.block) == GENESIS_CERT || p.block.parent in r.tree)
    && (ProposesOnCert(r, me, p) || ProposesOnTc(r, me, p))
  }

  // ------------------------------------------------------------------ steps

  predicate Shaped(net: Net, s: Live) {
    |s.peers| == |s.sys.replicas| == |net.cfg.powers|
  }

  /** What an honest replica reports: its tip, and its highest certificate unless that is genesis. */
  function ReportOf(r: Replica, me: Peer): Report {
    Report(me.tip, if r.highest == GENESIS_CERT then None else Some(r.highest))
  }

  predicate HonestMove(net: Net, m: Move) {
    match m
    case GetFull(at, _) => net.cfg.Honest(at)
    case GetHeader(at, _) => net.cfg.Honest(at)
    case VoteHeader(at) => net.cfg.Honest(at)
    case GetBlock(at, _) => net.cfg.Honest(at)
    case GetCert(at, _) => net.cfg.Honest(at)
    case EnterByCert(at, _) => net.cfg.Honest(at)
    case GetTimeoutCert(at, _) => net.cfg.Honest(at)
    case TimeOut(at) => net.cfg.Honest(at)
    case _ => true
  }

  /** Honest leaders send headers; only faulty ones send a whole proposal at once. */
  predicate Enabled(net: Net, s: Live, m: Move)
    requires net.Valid() && Shaped(net, s)
  {
    HonestMove(net, m) &&
    match m
    case Send(p) =>
      && p.block.Node? && p.from == Leader(net.cfg.powers, p.view) && p.from < |net.cfg.powers|
      && (net.cfg.Honest(p.from) ==> HonestProposal(s, p))
    case GetFull(at, p) =>
      p in s.sent && p.from in net.cfg.faulty && s.peers[at].view == p.view && ValidCertificates(net, s, p)
    case GetHeader(at, p) =>
      && p in s.sent && s.peers[at].view == p.view && ValidCertificates(net, s, p)
      && (Justify(p.block) == GENESIS_CERT || p.block.parent in s.sys.replicas[at].tree)
    case VoteHeader(at) =>
      var h := s.sys.replicas[at].awaiting;
      h.Some? && h.value.view == s.peers[at].view && h.value.block in s.sys.replicas[at].tree
    case GetBlock(at, b) => b.Node?
    case GetCert(at, pc) =>
      && Certified(net.cfg, s.sys, pc) && pc.block in s.sys.replicas[at].tree
      && LockClause(s.sys.replicas[at], pc)
    case EnterByCert(at, pc) => Certified(net.cfg, s.sys, pc) && pc.view + 1 > s.peers[at].view
    case GetTimeoutCert(at, tc) => CorrectTc(net, s, tc)
    case TimeOut(at) => true
    case FaultyTimeout(t) =>
      && t.signer in net.cfg.faulty && CertifiedOpt(net.cfg, s.sys, t.report.qc)
      && (t.report.tip.Some? ==> t.report.tip.value.view <= t.view && RealTip(s, t.report.tip.value))
    case VoteAnyhow(v) => true
  }

  /** The step of the unrestricted voters behind a move, if there is one. */
  function LabelOf(net: Net, m: Move): Option<Label> {
    match m
    case Send(p) => if net.cfg.Honest(p.from) && !Reproposes(p) then Some(InsertBlock(p.from, p.block)) else None
    case GetFull(at, p) => Some(OnProposal(at, p.view, p.block, TcHighQc(p), true))
    case GetHeader(at, p) => Some(OnHeader(at, Header(p.view, p.block, TcHighQc(p)), true))
    case VoteHeader(at) => Some(CastHeaderVote(at))
    case GetBlock(at, b) => Some(InsertBlock(at, b))
    case GetCert(at, pc) => Some(ApplyCert(at, pc))
    case EnterByCert(at, pc) => Some(AdvanceHighest(at, pc))
    case VoteAnyhow(v) => Some(FaultyVote(v))
    case _ => None
  }

  /** Whether replica `at` recorded a vote in `view` between two states. */
  predicate JustVoted(before: System, after: System, at: Validator, view: nat)
    requires at < |before.replicas| && at < |after.replicas|
  {
    after.replicas[at].voted == Some(view) && before.replicas[at].voted != Some(view)
  }

  /** What a move changes beside the voters' state. */
  function Peers(net: Net, s: Live, sys: System, m: Move): seq<Peer>
    requires net.Valid() && Shaped(net, s) && |sys.replicas| == |s.peers| && Enabled(net, s, m)
  {
    match m
    case GetFull(at, p) =>
      if JustVoted(s.sys, sys, at, p.view) then s.peers[at := s.peers[at].(tip := TipOf(p))] else s.peers
    case GetHeader(at, p) =>
      if sys.replicas[at].awaiting == Some(Header(p.view, p.block, TcHighQc(p)))
      then s.peers[at := s.peers[at].(next := TipOf(p))] else s.peers
    case VoteHeader(at) =>
      if JustVoted(s.sys, sys, at, s.peers[at].view) then s.peers[at := s.peers[at].(tip := s.peers[at].next)] else s.peers
    case EnterByCert(at, pc) => s.peers[at := s.peers[at].(view := pc.view + 1)]
    case GetTimeoutCert(at, tc) =>
      var me := s.peers[at];
      s.peers[at := me.(held := if me.held.None? || tc.view > me.held.value.view then Some(tc) else me.held,
                        view := if tc.view + 1 > me.view then tc.view + 1 else me.view)]
    case TimeOut(at) =>
      s.peers[at := s.peers[at].(view := s.peers[at].view + if net.EpochChange(s.peers[at].view) then 0 else 1)]
    case _ => s.peers
  }

  function Timeouts(net: Net, s: Live, m: Move): set<Timeout>
    requires net.Valid() && Shaped(net, s) && Enabled(net, s, m)
  {
    match m
    case TimeOut(at) => s.timeouts + {Timeout(at, s.peers[at].view, ReportOf(s.sys.replicas[at], s.peers[at]))}
    case FaultyTimeout(t) => s.timeouts + {t}
    case _ => s.timeouts
  }

  function SysAfter(net: Net, s: Live, m: Move): (t: System)
    requires net.Valid() && Shaped(net, s)
    ensures |t.replicas| == |net.cfg.powers|
  {
    if LabelOf(net, m).Some? then Step(net.cfg, s.sys, LabelOf(net, m).value) else s.sys
  }

  /** One move; a move whose guard fails changes nothing. */
  function Advance(net: Net, s: Live, m: Move): (t: Live)
    requires net.Valid() && Shaped(net, s)
    ensures Shaped(net, t)
  {
    if !Enabled(net, s, m) then s
    else
      var sys := SysAfter(net, s, m);
      Live(sys, Peers(net, s, sys, m), Timeouts(net, s, m), if m.Send? then s.sent + {m.proposal} else s.sent)
  }

  function Start(net: Net): Live {
    Live(Initial(net.cfg), seq(|net.cfg.powers|, _ => Peer(0, None, None, None)), {}, {})
  }

  function Run(net: Net, moves: seq<Move>): (s: Live)
    requires net.Valid()
    ensures Shaped(net, s)
  {
    if moves == [] then Start(net) else Advance(net, Run(net, moves[..|moves| - 1]), moves[|moves| - 1])
  }

  // ------------------------------------------------------------------ refinement

  /** The steps of the unrestricted voters in a run. */
  function Labels(net: Net, moves: seq<Move>): seq<Label>
    requires net.Valid()
  {
    if moves == [] then []
    else
      var before, m := moves[..|moves| - 1], moves[|moves| - 1];
      Labels(net, before) +
      if Enabled(net, Run(net, before), m) && LabelOf(net, m).Some? then [LabelOf(net, m).value] else []
  }

  /** A run under the rules is a run of the unrestricted voters. */
  lemma {:induction false} RulesRefine(net: Net, moves: seq<Move>)
    requires net.Valid()
    ensures Run(net, moves).sys == Exec(net.cfg, Labels(net, moves))
  {
    if moves != [] {
      hide Enabled, Step;
      var before, m := moves[..|moves| - 1], moves[|moves| - 1];
      RulesRefine(net, before);
      var labels := Labels(net, before);
      if LabelOf(net, m).Some? {
        assert (labels + [LabelOf(net, m).value])[..|labels|] == labels;
      }
      assert labels + [] == labels;
    }
  }

  /** Agreement under the rules, with the same two conditions. */
  lemma RulesKeepAgreement(net: Net, moves: seq<Move>, p: Commit, q: Commit)
    requires net.Valid() && UpdatesBeforeVotes(net.cfg, Labels(net, moves)) && NoViewZero(net.cfg, Run(net, moves).sys)
    requires p in Run(net, moves).sys.commits && q in Run(net, moves).sys.commits
    ensures Extends(p.block, q.block) || Extends(q.block, p.block)
  {
    RulesRefine(net, moves);
    Agreement.Agreement(net.cfg, Labels(net, moves), p, q);
  }

  /** A whole proposal is what the update condition is about; headers always lock first. */
  lemma {:induction false} HeadersUpdateBeforeVotes(net: Net, moves: seq<Move>)
    requires net.Valid() && forall m | m in moves :: !m.GetFull?
    ensures UpdatesBeforeVotes(net.cfg, Labels(net, moves))
  {
    if moves != [] {
      hide Enabled, Step;
      var before, m := moves[..|moves| - 1], moves[|moves| - 1];
      HeadersUpdateBeforeVotes(net, before);
      var labels := Labels(net, before);
      if LabelOf(net, m).Some? {
        assert (labels + [LabelOf(net, m).value])[..|labels|] == labels;
      }
      assert labels + [] == labels;
    }
  }

  // ------------------------------------------------------------------ tips

  ghost predicate VotedFor(sys: System, at: Validator, tip: Tip) {
    exists v :: v in sys.votes && v.voter == at && v.block == tip.block
  }

  /** The tip a vote on the awaited header would set is that header's block. */
  ghost predicate NextMatches(r: Replica, me: Peer) {
    r.awaiting.Some? ==> me.next.Some? && me.next.value.block == r.awaiting.value.block
  }

  ghost predicate PeerInv(sys: System, i: Validator, r: Replica, me: Peer) {
    NextMatches(r, me) && (me.tip.Some? ==> VotedFor(sys, i, me.tip.value))
  }

  /** One proposal per view from an honest leader, one leader per view. */
  ghost predicate SentInv(net: Net, sent: set<Proposal>)
    requires net.Valid()
  {
    && (forall p | p in sent :: p.from == Leader(net.cfg.powers, p.view))
    && (forall p, q | p in sent && q in sent && net.cfg.Honest(p.from) && p.view == q.view :: p == q)
  }

  ghost predicate TimeoutInv(net: Net, s: Live) {
    forall t | t in s.timeouts && net.cfg.Honest(t.signer) && t.report.tip.Some? ::
      VotedFor(s.sys, t.signer, t.report.tip.value)
  }

  ghost predicate TipInv(net: Net, s: Live)
    requires net.Valid()
  {
    && Shaped(net, s) && SentInv(net, s.sent) && TimeoutInv(net, s)
    && forall i: Validator | net.cfg.Honest(i) :: PeerInv(s.sys, i, s.sys.replicas[i], s.peers[i])
  }

  /** A vote is recorded exactly where one is cast, for the proposal or for the awaited header. */
  lemma VotesAreCast(net: Net, s: Live, m: Move)
    requires net.Valid() && Shaped(net, s) && Enabled(net, s, m)
    ensures var sys := SysAfter(net, s, m);
      && s.sys.votes <= sys.votes
      && (m.GetFull? && JustVoted(s.sys, sys, m.at, m.proposal.view) ==>
            Vote(m.at, m.proposal.view, m.proposal.block) in sys.votes)
      && (m.VoteHeader? && JustVoted(s.sys, sys, m.at, s.peers[m.at].view) ==>
            Vote(m.at, s.peers[m.at].view, s.sys.replicas[m.at].awaiting.value.block) in sys.votes)
  {
    hide Certified, SafeProposalLock, IsCommittedBlock, InsertAndUpdate, Update, UpdateLocksOnly, ValidCertificates,
      HonestProposal, CorrectTc, Leader;
    if m.GetFull? && m.proposal.block.Node? { UpdateKeepsVoted(s.sys.replicas[m.at], m.proposal.block); }
  }

  lemma UpdateKeepsVoted(r: Replica, b: Block)
    requires b.Node?
    ensures InsertAndUpdate(r, b).voted == r.voted
  {
    hide UpdateFails, BlockToCommit, CommitConnects;
  }

  /** Only a header changes what a replica awaits. */
  lemma AwaitedHeaders(net: Net, s: Live, m: Move, i: Validator)
    requires net.Valid() && Shaped(net, s) && Enabled(net, s, m) && net.cfg.Honest(i)
    ensures var sys := SysAfter(net, s, m);
      || sys.replicas[i].awaiting == s.sys.replicas[i].awaiting
      || (m.GetHeader? && m.at == i
          && sys.replicas[i].awaiting == Some(Header(m.proposal.view, m.proposal.block, TcHighQc(m.proposal))))
  {
    hide Certified, SafeProposalLock, IsCommittedBlock, BlockToCommit, UpdateFails, CommitConnects, PcToLock,
      ValidCertificates, HonestProposal, CorrectTc, Leader;
  }

  lemma VotedForStays(before: System, after: System, at: Validator, tip: Tip)
    requires VotedFor(before, at, tip) && before.votes <= after.votes
    ensures VotedFor(after, at, tip)
  {
    var v :| v in before.votes && v.voter == at && v.block == tip.block;
    assert v in after.votes;
  }

  lemma MoveKeepsPeer(net: Net, s: Live, m: Move, i: Validator)
    requires net.Valid() && TipInv(net, s) && net.cfg.Honest(i)
    ensures var t := Advance(net, s, m); PeerInv(t.sys, i, t.sys.replicas[i], t.peers[i])
  {
    hide SentInv, TimeoutInv, SysAfter, Leader, Certified, CorrectTc, HonestProposal;
    assert PeerInv(s.sys, i, s.sys.replicas[i], s.peers[i]);
    if Enabled(net, s, m) {
      var sys, was := SysAfter(net, s, m), s.peers[i];
      VotesAreCast(net, s, m);
      AwaitedHeaders(net, s, m, i);
      if was.tip.Some? { VotedForStays(s.sys, sys, i, was.tip.value); }
    }
  }

  lemma MoveKeepsTimeouts(net: Net, s: Live, m: Move)
    requires net.Valid() && TipInv(net, s)
    ensures TimeoutInv(net, Advance(net, s, m))
  {
    hide SentInv, SysAfter, Leader, Certified, CorrectTc, HonestProposal, ValidCertificates;
    if Enabled(net, s, m) {
      var t := Advance(net, s, m);
      VotesAreCast(net, s, m);
      forall u | u in t.timeouts && net.cfg.Honest(u.signer) && u.report.tip.Some?
        ensures VotedFor(t.sys, u.signer, u.report.tip.value)
      {
        if u !in s.timeouts { assert PeerInv(s.sys, u.signer, s.sys.replicas[u.signer], s.peers[u.signer]); }
        VotedForStays(s.sys, t.sys, u.signer, u.report.tip.value);
      }
    }
  }

  lemma MoveKeepsSent(net: Net, s: Live, m: Move)
    requires net.Valid() && Shaped(net, s) && SentInv(net, s.sent)
    ensures SentInv(net, Advance(net, s, m).sent)
  {
    hide SysAfter, Leader, Certified, CorrectTc, ValidCertificates, ProposesOnCert, ProposesOnTc;
  }

  lemma {:induction false} RunKeepsTips(net: Net, moves: seq<Move>)
    requires net.Valid()
    ensures TipInv(net, Run(net, moves))
  {
    if moves != [] {
      hide Advance, PeerInv, SentInv, TimeoutInv;
      var s, m := Run(net, moves[..|moves| - 1]), moves[|moves| - 1];
      RunKeepsTips(net, moves[..|moves| - 1]);
      MoveKeepsSent(net, s, m);
      MoveKeepsTimeouts(net, s, m);
      forall i: Validator | net.cfg.Honest(i) ensures var t := Advance(net, s, m); PeerInv(t.sys, i,
          t.sys.replicas[i], t.peers[i]) {
        MoveKeepsPeer(net, s, m, i);
      }
    }
  }

  /** A view has at most one tip unless its leader is faulty. */
  lemma OneTipPerView(net: Net, moves: seq<Move>, a: Tip, b: Tip)
    requires net.Valid() && RealTip(Run(net, moves), a) && RealTip(Run(net, moves), b) && a.view == b.view
    requires net.cfg.Honest(Leader(net.cfg.powers, a.view))
    ensures a == b
  {
    RunKeepsTips(net, moves);
  }

  /** The signers that report the high tip. */
  function Vouchers(tc: TimeoutCert): set<Validator> {
    set v | v in tc.reports && tc.reports[v].tip == tc.highTip
  }

  /** More than the faulty power reports the tip. */
  predicate Vouched(net: Net, tc: TimeoutCert) {
    Power(net.cfg.powers, Vouchers(tc), |net.cfg.powers|) > Total(net.cfg.powers) - Quorum(net.cfg.powers)
  }

  lemma SomeHonest(cfg: Config, s: set<Validator>) returns (v: Validator)
    requires cfg.Valid() && Power(cfg.powers, s, |cfg.powers|) > Total(cfg.powers) - Quorum(cfg.powers)
    ensures v in s && cfg.Honest(v)
  {
    var n := |cfg.powers|;
    if forall i | 0 <= i < n && i in s :: i in cfg.faulty {
      PowerMonotone(cfg.powers, s, cfg.faulty, n);
      assert false;
    }
    v :| 0 <= v < n && v in s && v !in cfg.faulty;
  }

  /** A tip vouched for by more than the faulty power is a block some honest validator voted for. */
  lemma VouchedTipWasVoted(net: Net, moves: seq<Move>, tc: TimeoutCert) returns (v: Validator)
    requires net.Valid() && CorrectTc(net, Run(net, moves), tc) && tc.highTip.Some? && Vouched(net, tc)
    ensures net.cfg.Honest(v) && VotedFor(Run(net, moves).sys, v, tc.highTip.value)
  {
    hide Run;
    RunKeepsTips(net, moves);
    v := SomeHonest(net.cfg, Vouchers(tc));
    assert Timeout(v, tc.view, tc.reports[v]) in Run(net, moves).timeouts;
  }
}
