/**
 Runs of a whole validator set: honest replicas receive proposals, headers, certificates and
 bodies in any order, faulty validators vote as they like.
 */
module VotingRuns {
  import opened Options
  import opened Voting

  datatype Config = Config(powers: seq<nat>, faulty: set<Validator>) {
    /** Less than a third of the power is faulty. */
    predicate Valid() {
      3 * Power(powers, faulty, |powers|) < Total(powers)
    }

    predicate Honest(v: Validator) {
      v < |powers| && v !in faulty
    }
  }

  datatype Vote = Vote(voter: Validator, view: nat, block: Block)

  datatype Commit = Commit(replica: Validator, block: Block)

  datatype System = System(votes: set<Vote>, replicas: seq<Replica>, commits: set<Commit>)

  datatype Label =
    | FaultyVote(vote: Vote)
    | OnProposal(at: Validator, view: nat, block: Block, tcHighQc: Option<Cert>, casts: bool)
    | OnHeader(at: Validator, header: Header, waits: bool)
    | CastHeaderVote(at: Validator)
    | InsertBlock(at: Validator, block: Block)
    | ApplyCert(at: Validator, pc: Cert)
    | AdvanceHighest(at: Validator, pc: Cert)
    | DropBlocks(at: Validator, gone: set<Block>)
    | LeaveView(at: Validator)

  function Initial(cfg: Config): System {
    System({}, seq(|cfg.powers|, _ => FRESH_REPLICA), {})
  }

  function Voters(s: System, pc: Cert): set<Validator> {
    set v | v in s.votes && v.view == pc.view && v.block == pc.block :: v.voter
  }

  /** A correct certificate: the genesis one, or one a quorum signed. */
  predicate Certified(cfg: Config, s: System, pc: Cert) {
    pc == GENESIS_CERT || (pc.block.Node? && IsQuorum(cfg.powers, Voters(s, pc)))
  }

  predicate CertifiedOpt(cfg: Config, s: System, pc: Option<Cert>) {
    pc.Some? ==> Certified(cfg, s, pc.value)
  }

  /** Install `r` at `v`, recording a commit when the frontier moved. */
  function Install(s: System, v: Validator, r: Replica): System
    requires v < |s.replicas|
  {
    s.(replicas := s.replicas[v := r],
       commits := if r.frontier.Some? && r.frontier != s.replicas[v].frontier
                  then s.commits + {Commit(v, r.frontier.value)} else s.commits)
  }

  function CastVote(s: System, v: Validator, view: nat, b: Block): System
    requires v < |s.replicas|
  {
    s.(votes := s.votes + {Vote(v, view, b)}, replicas := s.replicas[v := RecordVote(s.replicas[v], view)])
  }

  /** A full proposal: check it, insert and update unless the block is committed, then vote. */
  function ProposalStep(cfg: Config, s: System, l: Label): System
    requires l.OnProposal? && l.at < |s.replicas|
  {
    var r := s.replicas[l.at];
    if l.block.Node? && Certified(cfg, s, Justify(l.block)) && CertifiedOpt(cfg, s, l.tcHighQc)
       && (Justify(l.block) == GENESIS_CERT || l.block.parent in r.tree)
       && SafeProposalLock(r, l.block, l.tcHighQc)
    then
      var t := if IsCommittedBlock(r, l.block) then s else Install(s, l.at, InsertAndUpdate(r, l.block));
      if l.casts && MayVote(t.replicas[l.at], l.view) then CastVote(t, l.at, l.view, l.block) else t
    else s
  }

  /** A proposal header: check it, lock unless the block is committed, and wait for the body. */
  function HeaderStep(cfg: Config, s: System, l: Label): System
    requires l.OnHeader? && l.at < |s.replicas|
  {
    var r, h := s.replicas[l.at], l.header;
    if h.block.Node? && Certified(cfg, s, Justify(h.block)) && CertifiedOpt(cfg, s, h.tcHighQc)
       && SafeProposalLock(r, h.block, h.tcHighQc)
    then
      var t := if IsCommittedBlock(r, h.block) then r else UpdateLocksOnly(r, Justify(h.block));
      Install(s, l.at, if l.waits then t.(awaiting := Some(h)) else t)
    else s
  }

  /** The body of the awaited header is held: vote if the lock still admits it. */
  function CastHeaderStep(s: System, v: Validator): System
    requires v < |s.replicas|
  {
    var r := s.replicas[v];
    if r.awaiting.Some? && r.awaiting.value.block.Node? && MayVote(r, r.awaiting.value.view)
       && SafeProposalLock(r, r.awaiting.value.block, r.awaiting.value.tcHighQc)
    then CastVote(s, v, r.awaiting.value.view, r.awaiting.value.block)
    else s
  }

  /** One step; a label whose guard fails changes nothing. */
  function Step(cfg: Config, s: System, l: Label): System
    requires |s.replicas| == |cfg.powers|
  {
    if l.FaultyVote? then
      if l.vote.voter in cfg.faulty && l.vote.block.Node? then s.(votes := s.votes + {l.vote}) else s
    else if !cfg.Honest(l.at) then s
    else if l.OnProposal? then ProposalStep(cfg, s, l)
    else if l.OnHeader? then HeaderStep(cfg, s, l)
    else if l.CastHeaderVote? then CastHeaderStep(s, l.at)
    else if l.InsertBlock? then
      if l.block.Node? && Certified(cfg, s, Justify(l.block))
      then Install(s, l.at, InsertAndUpdate(s.replicas[l.at], l.block)) else s
    else if l.ApplyCert? then
      if Certified(cfg, s, l.pc) then Install(s, l.at, Update(s.replicas[l.at], l.pc)) else s
    else if l.AdvanceHighest? then
      var r := s.replicas[l.at];
      if Certified(cfg, s, l.pc) && l.pc.view > r.highest.view then Install(s, l.at, r.(highest := l.pc)) else s
    else if l.DropBlocks? then
      Install(s, l.at, s.replicas[l.at].(tree := s.replicas[l.at].tree - l.gone))
    else
      Install(s, l.at, s.replicas[l.at].(awaiting := None))
  }

  function Exec(cfg: Config, labels: seq<Label>): (s: System)
    ensures |s.replicas| == |cfg.powers|
  {
    if labels == [] then Initial(cfg)
    else Step(cfg, Exec(cfg, labels[..|labels| - 1]), labels[|labels| - 1])
  }
}
