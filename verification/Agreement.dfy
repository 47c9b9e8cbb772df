/**
 Agreement: in every run with less than a third of the power faulty, the blocks honest replicas
 commit all lie on one branch.
 */
module Agreement {
  import opened Options
  import opened Voting
  import opened VotingRuns

  // ------------------------------------------------------------------ what every step keeps

  /** `b` is certified in view `v` and its child `c` in view `v + 1`: the commit condition. */
  ghost predicate CommitPair(cfg: Config, s: System, v: nat, b: Block, c: Block) {
    && b.Node? && c.Node? && Justify(c) == Cert(v, b)
    && Certified(cfg, s, Cert(v, b)) && Certified(cfg, s, Cert(v + 1, c))
  }

  ghost predicate CommittedBy(cfg: Config, s: System, b: Block, lockView: nat) {
    exists v: nat, c :: CommitPair(cfg, s, v, b, c) && lockView >= v + 1
  }

  ghost predicate TreeInv(cfg: Config, s: System, tree: set<Block>) {
    forall b | b in tree :: b.Node? && Certified(cfg, s, Justify(b))
  }

  ghost predicate HeaderInv(cfg: Config, s: System, h: Header, lockView: nat) {
    && h.block.Node? && CertifiedOpt(cfg, s, h.tcHighQc)
    && Certified(cfg, s, Justify(h.block)) && h.block.justifyView <= lockView
  }

  ghost predicate ReplicaInv(cfg: Config, s: System, r: Replica) {
    && Certified(cfg, s, r.locked) && Certified(cfg, s, r.highest)
    && TreeInv(cfg, s, r.tree)
    && (r.awaiting.Some? ==> HeaderInv(cfg, s, r.awaiting.value, r.locked.view))
    && (r.frontier.Some? ==> CommittedBy(cfg, s, r.frontier.value, r.locked.view))
  }

  /** An honest validator voted at most once per view, and never above what it recorded. */
  ghost predicate OneVotePerView(s: System, i: Validator, r: Replica) {
    && (forall v | v in s.votes && v.voter == i :: !MayVote(r, v.view))
    && (forall v, w | v in s.votes && w in s.votes && v.voter == i && w.voter == i && v.view == w.view :: v == w)
  }

  /** A validator is locked at least as high as the justify of every block it voted for. */
  ghost predicate VoteInv(s: System, i: Validator, r: Replica) {
    forall v | v in s.votes && v.voter == i :: v.block.Node? && v.block.justifyView <= r.locked.view
  }

  ghost predicate Inv(cfg: Config, s: System) {
    && |s.replicas| == |cfg.powers|
    && (forall i: Validator | cfg.Honest(i) :: ReplicaInv(cfg, s, s.replicas[i]) && VoteInv(s, i, s.replicas[i]))
    && (forall c | c in s.commits :: exists v: nat, child :: CommitPair(cfg, s, v, c.block, child))
  }

  lemma CertifiedMonotone(cfg: Config, s: System, t: System, pc: Cert)
    requires s.votes <= t.votes && Certified(cfg, s, pc)
    ensures Certified(cfg, t, pc)
  {
    PowerMonotone(cfg.powers, Voters(s, pc), Voters(t, pc), |cfg.powers|);
  }

  lemma CommitPairMonotone(cfg: Config, s: System, t: System, v: nat, b: Block, c: Block)
    requires s.votes <= t.votes && CommitPair(cfg, s, v, b, c)
    ensures CommitPair(cfg, t, v, b, c)
  {
    CertifiedMonotone(cfg, s, t, Cert(v, b));
    CertifiedMonotone(cfg, s, t, Cert(v + 1, c));
  }

  lemma CommittedByMonotone(cfg: Config, s: System, t: System, b: Block, lockView: nat)
    requires s.votes <= t.votes && CommittedBy(cfg, s, b, lockView)
    ensures CommittedBy(cfg, t, b, lockView)
  {
    hide Certified;
    var v: nat, c :| CommitPair(cfg, s, v, b, c) && lockView >= v + 1;
    CommitPairMonotone(cfg, s, t, v, b, c);
  }

  lemma ReplicaInvMonotone(cfg: Config, s: System, t: System, r: Replica)
    requires s.votes <= t.votes && ReplicaInv(cfg, s, r)
    ensures ReplicaInv(cfg, t, r)
  {
    hide Certified, CommittedBy;
    CertifiedMonotone(cfg, s, t, r.locked);
    CertifiedMonotone(cfg, s, t, r.highest);
    forall b | b in r.tree ensures Certified(cfg, t, Justify(b)) { CertifiedMonotone(cfg, s, t, Justify(b)); }
    if r.frontier.Some? { CommittedByMonotone(cfg, s, t, r.frontier.value, r.locked.view); }
    if r.awaiting.Some? {
      CertifiedMonotone(cfg, s, t, Justify(r.awaiting.value.block));
      if r.awaiting.value.tcHighQc.Some? { CertifiedMonotone(cfg, s, t, r.awaiting.value.tcHighQc.value); }
    }
  }

  /** Locks only move forward, so what was committed or awaited stays locked on. */
  lemma LocksKeepInv(cfg: Config, s: System, r: Replica, pc: Cert)
    requires ReplicaInv(cfg, s, r) && Certified(cfg, s, pc)
    ensures var t := UpdateLocksOnly(r, pc);
      && ReplicaInv(cfg, s, t)
      && t.locked.view >= r.locked.view && (pc != GENESIS_CERT ==> t.locked.view >= pc.view)
      && t.voted == r.voted && t.tree == r.tree && t.frontier == r.frontier
  {
    hide Certified;
    var t := UpdateLocksOnly(r, pc);
    if r.frontier.Some? {
      var v: nat, c :| CommitPair(cfg, s, v, r.frontier.value, c) && r.locked.view >= v + 1;
      assert CommitPair(cfg, s, v, r.frontier.value, c) && t.locked.view >= v + 1;
    }
  }

  lemma UpdateKeepsInv(cfg: Config, s: System, r: Replica, pc: Cert)
    requires ReplicaInv(cfg, s, r) && Certified(cfg, s, pc)
    ensures var t := Update(r, pc);
      && ReplicaInv(cfg, s, t)
      && t.locked.view >= r.locked.view && t.voted == r.voted
      && (!UpdateFails(r, pc) && pc != GENESIS_CERT ==> t.locked.view >= pc.view)
  {
    hide Certified, UpdateFails, CommitConnects;
    LocksKeepInv(cfg, s, r, pc);
    var t := Update(r, pc);
    if t.frontier != r.frontier {
      var parentPc := Justify(pc.block);
      assert CommitPair(cfg, s, parentPc.view, parentPc.block, pc.block);
    }
  }

  lemma InsertKeepsInv(cfg: Config, s: System, r: Replica, b: Block)
    requires b.Node? && ReplicaInv(cfg, s, r) && Certified(cfg, s, Justify(b))
    ensures var t := InsertAndUpdate(r, b);
      && ReplicaInv(cfg, s, t)
      && t.locked.view >= r.locked.view && t.voted == r.voted
      && (!UpdateFails(r.(tree := r.tree + {b}), Justify(b)) && Justify(b) != GENESIS_CERT ==>
            t.locked.view >= b.justifyView)
  {
    hide Certified;
    var p := r.(tree := r.tree + {b});
    assert ReplicaInv(cfg, s, p);
    UpdateKeepsInv(cfg, s, p, Justify(b));
  }

  /** Replacing one replica's state by one that keeps its invariant keeps the whole. */
  lemma InstallKeepsInv(cfg: Config, s: System, i: Validator, r: Replica)
    requires Inv(cfg, s) && cfg.Honest(i) && ReplicaInv(cfg, s, r)
    requires r.voted == s.replicas[i].voted && r.locked.view >= s.replicas[i].locked.view
    ensures Inv(cfg, Install(s, i, r))
  {
    hide Certified;
    var t := Install(s, i, r);
    forall j: Validator | cfg.Honest(j) ensures ReplicaInv(cfg, t, t.replicas[j]) && VoteInv(t, j, t.replicas[j]) {
      ReplicaInvMonotone(cfg, s, t, t.replicas[j]);
      assert VoteInv(s, j, s.replicas[j]);
    }
    CommitsMonotone(cfg, s, t);
    if r.frontier.Some? {
      var v: nat, c :| CommitPair(cfg, s, v, r.frontier.value, c) && r.locked.view >= v + 1;
      CommitPairMonotone(cfg, s, t, v, r.frontier.value, c);
    }
  }

  lemma CommitsMonotone(cfg: Config, s: System, t: System)
    requires s.votes <= t.votes
    requires forall c | c in s.commits :: exists v: nat, child :: CommitPair(cfg, s, v, c.block, child)
    ensures forall c | c in s.commits :: exists v: nat, child :: CommitPair(cfg, t, v, c.block, child)
  {
    forall c | c in s.commits ensures exists v: nat, child :: CommitPair(cfg, t, v, c.block, child) {
      var v: nat, child :| CommitPair(cfg, s, v, c.block, child);
      CommitPairMonotone(cfg, s, t, v, c.block, child);
    }
  }

  /** An honest vote in a fresh view, for a block whose justify is not above the lock. */
  lemma VoteKeepsInv(cfg: Config, s: System, i: Validator, view: nat, b: Block)
    requires Inv(cfg, s) && cfg.Honest(i) && b.Node?
    requires MayVote(s.replicas[i], view) && b.justifyView <= s.replicas[i].locked.view
    ensures Inv(cfg, CastVote(s, i, view, b))
  {
    hide Certified;
    var t := CastVote(s, i, view, b);
    forall j: Validator | cfg.Honest(j) ensures ReplicaInv(cfg, t, t.replicas[j]) && VoteInv(t, j, t.replicas[j]) {
      ReplicaInvMonotone(cfg, s, t, s.replicas[j]);
      assert VoteInv(s, j, s.replicas[j]);
    }
    CommitsMonotone(cfg, s, t);
  }

  // ------------------------------------------------------------------ runs

  /** The vote is not cast on a proposal whose update failed. */
  ghost predicate UpdateBeforeVote(cfg: Config, s: System, l: Label)
    requires |s.replicas| == |cfg.powers|
  {
    l.OnProposal? && cfg.Honest(l.at) && l.casts && l.block.Node? && !IsCommittedBlock(s.replicas[l.at], l.block) ==>
      var r := s.replicas[l.at];
      !UpdateFails(r.(tree := r.tree + {l.block}), Justify(l.block))
  }

  ghost predicate UpdatesBeforeVotes(cfg: Config, labels: seq<Label>) {
    labels != [] ==>
      var before := labels[..|labels| - 1];
      UpdatesBeforeVotes(cfg, before) && UpdateBeforeVote(cfg, Exec(cfg, before), labels[|labels| - 1])
  }

  /** No block is certified in view 0, the view of the genesis certificate. */
  ghost predicate NoViewZero(cfg: Config, s: System) {
    forall b: Block | b.Node? :: !Certified(cfg, s, Cert(0, b))
  }

  /** A step never removes a vote; it adds at most one honest vote, above all earlier ones of its voter. */
  lemma StepVotes(cfg: Config, s: System, l: Label, i: Validator)
    requires |s.replicas| == |cfg.powers| && cfg.Honest(i)
    ensures var t := Step(cfg, s, l);
      && s.votes <= t.votes
      && (forall view: nat :: !MayVote(s.replicas[i], view) ==> !MayVote(t.replicas[i], view))
      && (forall v | v in t.votes && v !in s.votes && v.voter == i ::
            MayVote(s.replicas[i], v.view) && t.replicas[i].voted == Some(v.view))
      && (forall v, w | v in t.votes && v !in s.votes && w in t.votes && w !in s.votes && v.voter == i
          && w.voter == i :: v == w)
  {
    hide Certified, SafeProposalLock, IsCommittedBlock, UpdateFails, BlockToCommit, CommitConnects;
  }

  lemma {:induction false} ExecOneVotePerView(cfg: Config, labels: seq<Label>, i: Validator)
    requires cfg.Honest(i)
    ensures OneVotePerView(Exec(cfg, labels), i, Exec(cfg, labels).replicas[i])
  {
    if labels != [] {
      hide Step;
      var before := labels[..|labels| - 1];
      ExecOneVotePerView(cfg, before, i);
      StepVotes(cfg, Exec(cfg, before), labels[|labels| - 1], i);
    }
  }

  lemma {:induction false} VotesGrow(cfg: Config, labels: seq<Label>, k: nat, i: Validator)
    requires k <= |labels| && cfg.Honest(i)
    ensures var s, t := Exec(cfg, labels[..k]), Exec(cfg, labels);
      s.votes <= t.votes && forall view: nat :: !MayVote(s.replicas[i], view) ==> !MayVote(t.replicas[i], view)
    decreases |labels|
  {
    if k == |labels| {
      assert labels[..k] == labels;
    } else {
      hide Step;
      var before := labels[..|labels| - 1];
      assert before[..k] == labels[..k];
      VotesGrow(cfg, before, k, i);
      StepVotes(cfg, Exec(cfg, before), labels[|labels| - 1], i);
    }
  }

  /** Votes of an honest validator at or below what it has recorded are all cast already. */
  lemma {:induction false} VotesFrozen(cfg: Config, labels: seq<Label>, k: nat, v: Vote)
    requires k <= |labels| && cfg.Honest(v.voter)
    requires v in Exec(cfg, labels).votes
    requires !MayVote(Exec(cfg, labels[..k]).replicas[v.voter], v.view)
    ensures v in Exec(cfg, labels[..k]).votes
    decreases |labels|
  {
    if k == |labels| {
      assert labels[..k] == labels;
    } else {
      hide Step;
      var before := labels[..|labels| - 1];
      assert before[..k] == labels[..k];
      VotesGrow(cfg, before, k, v.voter);
      StepVotes(cfg, Exec(cfg, before), labels[|labels| - 1], v.voter);
      VotesFrozen(cfg, before, k, v);
    }
  }

  // ------------------------------------------------------------------ one branch

  ghost predicate CertsExtend(cfg: Config, s: System, v: nat, b: Block) {
    forall pc: Cert | Certified(cfg, s, pc) && pc.view >= v :: Extends(pc.block, b)
  }

  /** Every later honest vote of a validator that votes for `c` in view `v + 1` is on the branch of `b`. */
  ghost predicate VotesExtend(cfg: Config, s: System, end: System, v: nat, b: Block, c: Block) {
    forall x | x in s.votes && cfg.Honest(x.voter) && Vote(x.voter, v + 1, c) in end.votes && x.view > v + 1 ::
      Extends(x.block, b)
  }

  lemma HonestVoterOfBoth(cfg: Config, s: System, t: System, p: Cert, q: Cert) returns (i: Validator)
    requires cfg.Valid() && p != GENESIS_CERT && q != GENESIS_CERT
    requires Certified(cfg, s, p) && Certified(cfg, t, q)
    ensures cfg.Honest(i) && Vote(i, p.view, p.block) in s.votes && Vote(i, q.view, q.block) in t.votes
  {
    i := QuorumsMeet(cfg.powers, Voters(s, p), Voters(t, q), cfg.faulty);
  }

  /** Votes on the branch make every certificate at or above `v` one on the branch. */
  lemma CertExtends(cfg: Config, s: System, end: System, v: nat, b: Block, c: Block, pc: Cert)
    requires cfg.Valid() && s.votes <= end.votes && v > 0
    requires forall i: Validator | cfg.Honest(i) :: i < |end.replicas| && OneVotePerView(end, i, end.replicas[i])
    requires CommitPair(cfg, end, v, b, c) && VotesExtend(cfg, s, end, v, b, c)
    requires Certified(cfg, s, pc) && pc.view >= v
    ensures Extends(pc.block, b)
  {
    hide Certified, MayVote;
    var q := if pc.view == v then Cert(v, b) else Cert(v + 1, c);
    var i := HonestVoterOfBoth(cfg, s, end, pc, q);
    assert OneVotePerView(end, i, end.replicas[i]);
    if pc.view <= v + 1 {
      assert Vote(i, pc.view, pc.block) == Vote(i, q.view, q.block);
      assert Extends(c, b);
    }
  }

  /** The lock rule keeps a replica locked at or above `v` on the branch. */
  lemma SafeVoteExtends(cfg: Config, s: System, r: Replica, x: Block, tcHighQc: Option<Cert>, v: nat, b: Block)
    requires v > 0 && x.Node? && ReplicaInv(cfg, s, r) && CertsExtend(cfg, s, v, b) && r.locked.view >= v
    requires Certified(cfg, s, Justify(x)) && CertifiedOpt(cfg, s, tcHighQc) && SafeProposalLock(r, x, tcHighQc)
    ensures Extends(x, b)
  {
    hide Certified;
    assert Extends(r.locked.block, b);
    if Justify(x).view > r.locked.view {
      assert Extends(Justify(x).block, b);
    }
  }

  lemma {:induction false} ExtendsHeight(x: Block, a: Block)
    requires Extends(x, a) && a.Node?
    ensures x.Node? && Height(x) >= Height(a)
  {
    if x != a { ExtendsHeight(x.parent, a); }
  }

  /** A block a replica takes for committed is never justified above its lock. */
  lemma CommittedBlockIsLocked(cfg: Config, s: System, r: Replica, x: Block)
    requires ReplicaInv(cfg, s, r) && IsCommittedBlock(r, x)
    requires forall v: nat, b, c | CommitPair(cfg, s, v, b, c) :: CertsExtend(cfg, s, v, b)
    ensures x.Node? && x.justifyView <= r.locked.view
  {
    hide Certified;
    var f := r.frontier.value;
    var v: nat, c :| CommitPair(cfg, s, v, f, c) && r.locked.view >= v + 1;
    if x.justifyView > r.locked.view {
      assert Certified(cfg, s, Justify(x));
      ExtendsHeight(x.parent, f);
      assert false;
    }
  }

  // ------------------------------------------------------------------ every run

  /** Every commit pair of `s` has all certificates at or above it on its branch. */
  ghost predicate PairsHold(cfg: Config, s: System) {
    forall v: nat, b, c | CommitPair(cfg, s, v, b, c) :: CertsExtend(cfg, s, v, b)
  }

  lemma ProposalKeepsInv(cfg: Config, s: System, l: Label)
    requires Inv(cfg, s) && PairsHold(cfg, s) && l.OnProposal? && cfg.Honest(l.at) && UpdateBeforeVote(cfg, s, l)
    ensures Inv(cfg, ProposalStep(cfg, s, l))
  {
    hide Certified, SafeProposalLock, CertsExtend, IsCommittedBlock, InsertAndUpdate, UpdateFails;
    var r := s.replicas[l.at];
    if l.block.Node? && Certified(cfg, s, Justify(l.block)) {
      var t := s;
      if IsCommittedBlock(r, l.block) {
        CommittedBlockIsLocked(cfg, s, r, l.block);
      } else {
        InsertKeepsInv(cfg, s, r, l.block);
        t := Install(s, l.at, InsertAndUpdate(r, l.block));
        InstallKeepsInv(cfg, s, l.at, InsertAndUpdate(r, l.block));
      }
      if l.casts && MayVote(t.replicas[l.at], l.view) {
        VoteKeepsInv(cfg, t, l.at, l.view, l.block);
      }
    }
  }

  lemma HeaderKeepsInv(cfg: Config, s: System, l: Label)
    requires Inv(cfg, s) && PairsHold(cfg, s) && l.OnHeader? && cfg.Honest(l.at)
    ensures Inv(cfg, HeaderStep(cfg, s, l))
  {
    hide Certified, SafeProposalLock, CertsExtend, IsCommittedBlock;
    var r, h := s.replicas[l.at], l.header;
    if h.block.Node? && Certified(cfg, s, Justify(h.block)) && CertifiedOpt(cfg, s, h.tcHighQc) {
      var t := r;
      if IsCommittedBlock(r, h.block) {
        CommittedBlockIsLocked(cfg, s, r, h.block);
      } else {
        LocksKeepInv(cfg, s, r, Justify(h.block));
        t := UpdateLocksOnly(r, Justify(h.block));
      }
      InstallKeepsInv(cfg, s, l.at, if l.waits then t.(awaiting := Some(h)) else t);
    }
  }

  lemma FaultyVoteKeepsInv(cfg: Config, s: System, v: Vote)
    requires Inv(cfg, s) && v.voter in cfg.faulty
    ensures Inv(cfg, s.(votes := s.votes + {v}))
  {
    hide Certified;
    var t := s.(votes := s.votes + {v});
    forall j: Validator | cfg.Honest(j) ensures ReplicaInv(cfg, t, t.replicas[j]) && VoteInv(t, j, t.replicas[j]) {
      ReplicaInvMonotone(cfg, s, t, s.replicas[j]);
      assert VoteInv(s, j, s.replicas[j]);
    }
    CommitsMonotone(cfg, s, t);
  }

  lemma StepKeepsInv(cfg: Config, s: System, l: Label)
    requires Inv(cfg, s) && PairsHold(cfg, s) && UpdateBeforeVote(cfg, s, l)
    ensures Inv(cfg, Step(cfg, s, l))
  {
    hide Certified, SafeProposalLock, CertsExtend, Update, InsertAndUpdate, ProposalStep, HeaderStep;
    if l.FaultyVote? {
      if l.vote.voter in cfg.faulty { FaultyVoteKeepsInv(cfg, s, l.vote); }
    } else if cfg.Honest(l.at) {
      var r := s.replicas[l.at];
      assert ReplicaInv(cfg, s, r);
      if l.OnProposal? {
        ProposalKeepsInv(cfg, s, l);
      } else if l.OnHeader? {
        HeaderKeepsInv(cfg, s, l);
      } else if l.CastHeaderVote? {
        if r.awaiting.Some? && MayVote(r, r.awaiting.value.view) {
          VoteKeepsInv(cfg, s, l.at, r.awaiting.value.view, r.awaiting.value.block);
        }
      } else if l.InsertBlock? {
        if l.block.Node? && Certified(cfg, s, Justify(l.block)) {
          InsertKeepsInv(cfg, s, r, l.block);
          InstallKeepsInv(cfg, s, l.at, InsertAndUpdate(r, l.block));
        }
      } else if l.ApplyCert? {
        if Certified(cfg, s, l.pc) {
          UpdateKeepsInv(cfg, s, r, l.pc);
          InstallKeepsInv(cfg, s, l.at, Update(r, l.pc));
        }
      } else if l.AdvanceHighest? {
        if Certified(cfg, s, l.pc) { InstallKeepsInv(cfg, s, l.at, r.(highest := l.pc)); }
      } else if l.DropBlocks? {
        InstallKeepsInv(cfg, s, l.at, r.(tree := r.tree - l.gone));
      } else {
        InstallKeepsInv(cfg, s, l.at, r.(awaiting := None));
      }
    }
  }

  /** The rule behind a new honest vote: the lock rule on the state it was cast in. */
  lemma NewVoteIsSafe(cfg: Config, s: System, l: Label, x: Vote) returns (tcHighQc: Option<Cert>)
    requires Inv(cfg, s) && cfg.Honest(x.voter) && x in Step(cfg, s, l).votes && x !in s.votes
    ensures x.block.Node? && Certified(cfg, s, Justify(x.block)) && CertifiedOpt(cfg, s, tcHighQc)
    ensures SafeProposalLock(s.replicas[x.voter], x.block, tcHighQc)
  {
    hide Certified, SafeProposalLock, IsCommittedBlock, InsertAndUpdate;
    assert ReplicaInv(cfg, s, s.replicas[x.voter]);
    if l.OnProposal? {
      tcHighQc := l.tcHighQc;
    } else {
      tcHighQc := s.replicas[x.voter].awaiting.value.tcHighQc;
    }
  }

  /** The last step keeps votes on the branch of every commit pair of the whole run. */
  lemma StepKeepsVotesExtend(cfg: Config, labels: seq<Label>, k: nat, v: nat, b: Block, c: Block)
    requires k < |labels| && v > 0
    requires Inv(cfg, Exec(cfg, labels[..k])) && CertsExtend(cfg, Exec(cfg, labels[..k]), v, b)
    requires c.Node? && Justify(c) == Cert(v, b)
    requires VotesExtend(cfg, Exec(cfg, labels[..k]), Exec(cfg, labels), v, b, c)
    ensures VotesExtend(cfg, Exec(cfg, labels[..k + 1]), Exec(cfg, labels), v, b, c)
  {
    hide Step, Certified, SafeProposalLock, CertsExtend, ReplicaInv;
    assert labels[..k + 1][..k] == labels[..k];
    var s, t := Exec(cfg, labels[..k]), Exec(cfg, labels[..k + 1]);
    assert t == Step(cfg, s, labels[k]);
    forall x | x in t.votes && x !in s.votes && cfg.Honest(x.voter)
               && Vote(x.voter, v + 1, c) in Exec(cfg, labels).votes && x.view > v + 1
      ensures Extends(x.block, b)
    {
      var y := Vote(x.voter, v + 1, c);
      StepVotes(cfg, s, labels[k], x.voter);
      VotesFrozen(cfg, labels, k + 1, y);
      assert y in s.votes && VoteInv(s, x.voter, s.replicas[x.voter]);
      var tcHighQc := NewVoteIsSafe(cfg, s, labels[k], x);
      SafeVoteExtends(cfg, s, s.replicas[x.voter], x.block, tcHighQc, v, b);
    }
  }

  lemma {:induction false} ExecGrows(cfg: Config, labels: seq<Label>, k: nat)
    requires k <= |labels|
    ensures Exec(cfg, labels[..k]).votes <= Exec(cfg, labels).votes
    decreases |labels|
  {
    if k == |labels| {
      assert labels[..k] == labels;
    } else {
      var before := labels[..|labels| - 1];
      assert before[..k] == labels[..k];
      ExecGrows(cfg, before, k);
      StepGrows(cfg, Exec(cfg, before), labels[|labels| - 1]);
    }
  }

  lemma StepGrows(cfg: Config, s: System, l: Label)
    requires |s.replicas| == |cfg.powers|
    ensures s.votes <= Step(cfg, s, l).votes
  {
    hide Certified, SafeProposalLock, IsCommittedBlock, InsertAndUpdate, Update, UpdateLocksOnly;
  }

  lemma {:induction false} UpdateBeforeEachVote(cfg: Config, labels: seq<Label>, k: nat)
    requires k < |labels| && UpdatesBeforeVotes(cfg, labels)
    ensures UpdateBeforeVote(cfg, Exec(cfg, labels[..k]), labels[k])
    decreases |labels|
  {
    var before := labels[..|labels| - 1];
    if k < |before| {
      UpdateBeforeEachVote(cfg, before, k);
      assert before[..k] == labels[..k];
    }
  }

  /** The certificates of `s` are on the branch of every commit pair of the whole run. */
  ghost predicate OnBranch(cfg: Config, s: System, end: System) {
    forall v: nat, b, c | CommitPair(cfg, end, v, b, c) :: VotesExtend(cfg, s, end, v, b, c) && CertsExtend(cfg, s, v, b)
  }

  lemma VotesOnBranch(cfg: Config, labels: seq<Label>, k: nat)
    requires k <= |labels| && cfg.Valid() && NoViewZero(cfg, Exec(cfg, labels))
    requires forall v: nat, b, c | CommitPair(cfg, Exec(cfg, labels), v, b, c) ::
      VotesExtend(cfg, Exec(cfg, labels[..k]), Exec(cfg, labels), v, b, c)
    ensures OnBranch(cfg, Exec(cfg, labels[..k]), Exec(cfg, labels))
  {
    hide Step, Exec, Certified, Extends, VotesExtend, OneVotePerView;
    var s, end := Exec(cfg, labels[..k]), Exec(cfg, labels);
    ExecGrows(cfg, labels, k);
    forall i: Validator | cfg.Honest(i) ensures OneVotePerView(end, i, end.replicas[i]) {
      ExecOneVotePerView(cfg, labels, i);
    }
    forall v: nat, b, c, pc | CommitPair(cfg, end, v, b, c) && Certified(cfg, s, pc) && pc.view >= v
        ensures Extends(pc.block, b) {
      assert v > 0;
      CertExtends(cfg, s, end, v, b, c, pc);
    }
  }

  /** At every point of a run, its certificates are on the branch of every commit pair of the run. */
  lemma {:induction false} RunInv(cfg: Config, labels: seq<Label>, k: nat)
    requires k <= |labels| && cfg.Valid() && UpdatesBeforeVotes(cfg, labels) && NoViewZero(cfg, Exec(cfg, labels))
    ensures Inv(cfg, Exec(cfg, labels[..k])) && OnBranch(cfg, Exec(cfg, labels[..k]), Exec(cfg, labels))
  {
    hide Step, Certified, CommitPair, CertsExtend, Inv, NoViewZero, UpdatesBeforeVotes;
    if k == 0 {
      InitialInv(cfg);
    } else {
      RunInv(cfg, labels, k - 1);
      RunStep(cfg, labels, k - 1);
    }
    VotesOnBranch(cfg, labels, k);
  }

  lemma InitialInv(cfg: Config)
    ensures Inv(cfg, Initial(cfg))
  {
  }

  lemma RunStep(cfg: Config, labels: seq<Label>, k: nat)
    requires k < |labels| && cfg.Valid() && UpdatesBeforeVotes(cfg, labels) && NoViewZero(cfg, Exec(cfg, labels))
    requires Inv(cfg, Exec(cfg, labels[..k])) && OnBranch(cfg, Exec(cfg, labels[..k]), Exec(cfg, labels))
    ensures Inv(cfg, Exec(cfg, labels[..k + 1]))
    ensures forall v: nat, b, c | CommitPair(cfg, Exec(cfg, labels), v, b, c) ::
      VotesExtend(cfg, Exec(cfg, labels[..k + 1]), Exec(cfg, labels), v, b, c)
  {
    hide Step, Certified, CertsExtend, VotesExtend, Inv, UpdateBeforeVote;
    var s, end := Exec(cfg, labels[..k]), Exec(cfg, labels);
    assert labels[..k + 1][..k] == labels[..k];
    ExecGrows(cfg, labels, k);
    forall v: nat, b, c | CommitPair(cfg, s, v, b, c) ensures CertsExtend(cfg, s, v, b) {
      CommitPairMonotone(cfg, s, end, v, b, c);
    }
    UpdateBeforeEachVote(cfg, labels, k);
    StepKeepsInv(cfg, s, labels[k]);
    forall v: nat, b, c | CommitPair(cfg, end, v, b, c)
      ensures VotesExtend(cfg, Exec(cfg, labels[..k + 1]), end, v, b, c)
    {
      StepKeepsVotesExtend(cfg, labels, k, v, b, c);
    }
  }

  /**
   Agreement. In every run with less than a third of the power faulty, in which no block is
   certified in view 0 and no replica votes on a proposal whose update failed, any two blocks
   committed by honest replicas, at any two moments, lie on one branch.
   */
  lemma Agreement(cfg: Config, labels: seq<Label>, p: Commit, q: Commit)
    requires cfg.Valid() && UpdatesBeforeVotes(cfg, labels) && NoViewZero(cfg, Exec(cfg, labels))
    requires p in Exec(cfg, labels).commits && q in Exec(cfg, labels).commits
    ensures Extends(p.block, q.block) || Extends(q.block, p.block)
  {
    var s := Exec(cfg, labels);
    assert labels[..|labels|] == labels;
    RunInv(cfg, labels, |labels|);
    var v: nat, c :| CommitPair(cfg, s, v, p.block, c);
    var w: nat, d :| CommitPair(cfg, s, w, q.block, d);
    assert CertsExtend(cfg, s, v, p.block) && CertsExtend(cfg, s, w, q.block);
    if v <= w {
      assert Certified(cfg, s, Cert(w, q.block));
    } else {
      assert Certified(cfg, s, Cert(v, p.block));
    }
  }

  lemma {:induction false} AncestorsCompare(x: Block, a: Block, b: Block)
    requires Extends(x, a) && Extends(x, b)
    ensures Extends(a, b) || Extends(b, a)
  {
    if x != a && x != b { AncestorsCompare(x.parent, a, b); }
  }

  lemma {:induction false} ExtendsTransitive(x: Block, y: Block, z: Block)
    requires Extends(x, y) && Extends(y, z)
    ensures Extends(x, z)
  {
    if x != y { ExtendsTransitive(x.parent, y, z); }
  }

  lemma SameHeight(a: Block, b: Block)
    requires a.Node? && b.Node? && Extends(a, b) && Height(a) == Height(b)
    ensures a == b
  {
    if a != b { ExtendsHeight(a.parent, b); }
  }

  /** No two honest replicas ever hold different committed blocks at one height. */
  lemma OneBlockPerHeight(cfg: Config, labels: seq<Label>, p: Commit, q: Commit, a: Block, b: Block)
    requires cfg.Valid() && UpdatesBeforeVotes(cfg, labels) && NoViewZero(cfg, Exec(cfg, labels))
    requires p in Exec(cfg, labels).commits && q in Exec(cfg, labels).commits
    requires Extends(p.block, a) && Extends(q.block, b) && a.Node? && b.Node? && Height(a) == Height(b)
    ensures a == b
  {
    hide Exec;
    Agreement(cfg, labels, p, q);
    var top := if Extends(p.block, q.block) then p.block else q.block;
    if top == p.block { ExtendsTransitive(top, q.block, b); } else { ExtendsTransitive(top, p.block, a); }
    AncestorsCompare(top, a, b);
    if Extends(a, b) { SameHeight(a, b); } else { SameHeight(b, a); }
  }

  /** Of two commit pairs, the one with the higher block is on the other's branch. */
  lemma HigherPairExtends(cfg: Config, s: System, v: nat, f: Block, c: Block, w: nat, b: Block, d: Block)
    requires CommitPair(cfg, s, v, f, c) && CommitPair(cfg, s, w, b, d)
    requires CertsExtend(cfg, s, v, f) && CertsExtend(cfg, s, w, b) && Height(b) > Height(f)
    ensures Extends(b, f)
  {
    hide Certified;
    if v <= w {
      assert Certified(cfg, s, Cert(w, b));
    } else {
      assert Certified(cfg, s, Cert(v, f));
      ExtendsHeight(f, b);
      assert false;
    }
  }

  /** In a state of a run, the block the commit rule picks is the lower half of a commit pair. */
  lemma CommitRulePicksPair(cfg: Config, s: System, r: Replica, pc: Cert)
    requires TreeInv(cfg, s, r.tree) && Certified(cfg, s, pc) && BlockToCommit(r, pc).Some?
    ensures pc.block.Node? && CommitPair(cfg, s, pc.block.justifyView, BlockToCommit(r, pc).value, pc.block)
    ensures r.frontier.Some? ==> Height(BlockToCommit(r, pc).value) > Height(r.frontier.value)
  {
    hide Certified;
  }

  /**
   The commit walk is only ever stopped by a missing block: in every reachable state, a block the
   commit rule picks above the frontier descends from the frontier.
   */
  lemma CommitRuleExtendsFrontier(cfg: Config, labels: seq<Label>, i: Validator, pc: Cert)
    requires cfg.Valid() && UpdatesBeforeVotes(cfg, labels) && NoViewZero(cfg, Exec(cfg, labels)) && cfg.Honest(i)
    requires Certified(cfg, Exec(cfg, labels), pc)
    requires var r := Exec(cfg, labels).replicas[i]; BlockToCommit(r, pc).Some? && r.frontier.Some?
    ensures var r := Exec(cfg, labels).replicas[i]; Extends(BlockToCommit(r, pc).value, r.frontier.value)
  {
    hide Exec, Certified, UpdatesBeforeVotes, VotesExtend, TreeInv, CommitPair, CertsExtend, Extends, BlockToCommit;
    var s := Exec(cfg, labels);
    var r := s.replicas[i];
    assert labels[..|labels|] == labels;
    RunInv(cfg, labels, |labels|);
    assert ReplicaInv(cfg, s, r);
    CommitRulePicksPair(cfg, s, r, pc);
    var f, b := r.frontier.value, BlockToCommit(r, pc).value;
    var v: nat, c :| CommitPair(cfg, s, v, f, c) && r.locked.view >= v + 1;
    HigherPairExtends(cfg, s, v, f, c, pc.block.justifyView, b, pc.block);
  }
}
