/**
 When an honest replica votes, told on the votes of the whole system and on nothing but views,
 blocks and the replica's tree.
 */
module VoteRule {
  import opened Options
  import opened Voting
  import opened VotingRuns
  import opened ProposalRules

  /** `a` is reached from `b` in `n` steps to the parent, each from a block the tree holds. */
  ghost predicate Climbs(tree: set<Block>, b: Block, a: Block, n: nat) {
    if n == 0 then b == a else b in tree && b.Node? && Climbs(tree, b.parent, a, n - 1)
  }

  /** `b` is `a`, a child of it or a grandchild, as far as the tree holds them. */
  ghost predicate WithinTwo(tree: set<Block>, b: Block, a: Block) {
    exists n: nat :: n <= 2 && Climbs(tree, b, a, n)
  }

  /** A certificate on `b`, not the genesis one, from a view above the lock. */
  ghost predicate Newer(r: Replica, pc: Cert, b: Block) {
    pc.block == b && pc.block.Node? && pc.view > r.locked.view
  }

  /**
   Four reasons to vote for `b`: it is the locked block; a certificate on it is newer than the
   lock; its justify is newer than the lock; its parent is the locked block, or a child or
   grandchild of it.
   */
  ghost predicate Admits(r: Replica, b: Block, tcHighQc: Option<Cert>)
    requires b.Node?
  {
    || (r.locked.block.Node? && b == r.locked.block)
    || Newer(r, r.highest, b)
    || (tcHighQc.Some? && Newer(r, tcHighQc.value, b))
    || b.justifyView > r.locked.view
    || WithinTwo(r.tree, b.parent, r.locked.block)
  }

  /** What a proposal needs besides: correct certificates, and the parent at hand. */
  ghost predicate Presented(cfg: Config, s: System, r: Replica, b: Block, tcHighQc: Option<Cert>) {
    && b.Node?
    && Certified(cfg, s, Cert(b.justifyView, b.parent))
    && (tcHighQc.Some? ==> Certified(cfg, s, tcHighQc.value))
    && ((b.parent.Genesis? && b.justifyView == 0) || b.parent in r.tree)
  }

  lemma ReachIsTwoSteps(r: Replica, pc: Cert)
    ensures ExtendsLocked(r, pc) <==> WithinTwo(r.tree, pc.block, r.locked.block)
  {
    var b, a, tree := pc.block, r.locked.block, r.tree;
    assert Climbs(tree, b, a, 0) <==> b == a;
    assert Climbs(tree, b, a, 1) <==> b in tree && b.Node? && b.parent == a;
    assert Climbs(tree, b, a, 2) <==> b in tree && b.Node? && Climbs(tree, b.parent, a, 1);
    if WithinTwo(tree, b, a) {
      var n: nat :| n <= 2 && Climbs(tree, b, a, n);
      assert n == 0 || n == 1 || n == 2;
    }
  }

  /** The lock rule lets a block through for one of the four reasons, and for no other. */
  lemma LockRuleIff(r: Replica, b: Block, tcHighQc: Option<Cert>)
    requires b.Node?
    ensures SafeProposalLock(r, b, tcHighQc) <==> Admits(r, b, tcHighQc)
  {
    hide ExtendsLocked, WithinTwo;
    ReachIsTwoSteps(r, Justify(b));
  }

  /**
   A proposal adds exactly one vote, the replica's own in that view, when the certificates are
   correct, the parent is at hand, the view is fresh and one of the four reasons holds; else none.
   */
  lemma ProposalVoteIff(cfg: Config, s: System, i: Validator, view: nat, b: Block, tcHighQc: Option<Cert>, casts: bool)
    requires |s.replicas| == |cfg.powers| && cfg.Honest(i)
    ensures var r := s.replicas[i];
      Step(cfg, s, OnProposal(i, view, b, tcHighQc, casts)).votes
      == if casts && Presented(cfg, s, r, b, tcHighQc) && (r.voted.None? || r.voted.value < view) && Admits(r, b, tcHighQc)
         then s.votes + {Vote(i, view, b)} else s.votes
  {
    hide Certified, SafeProposalLock, Admits, InsertAndUpdate, IsCommittedBlock;
    var r := s.replicas[i];
    if b.Node? {
      LockRuleIff(r, b, tcHighQc);
      UpdateKeepsVoted(r, b);
    }
  }

  /** A proposal of a block at or below the committed height can add a vote and changes nothing else. */
  lemma CommittedProposalOnlyVotes(cfg: Config, s: System, i: Validator, view: nat, b: Block, tcHighQc: Option<Cert>,
                                   casts: bool)
    requires |s.replicas| == |cfg.powers| && cfg.Honest(i)
    requires var r := s.replicas[i]; b in r.tree && r.frontier.Some? && Height(b) <= Height(r.frontier.value)
    ensures var r, t := s.replicas[i], Step(cfg, s, OnProposal(i, view, b, tcHighQc, casts));
      && t.commits == s.commits
      && t.replicas == s.replicas[i := r.(voted := t.replicas[i].voted)]
      && (t.replicas[i].voted == r.voted || t.replicas[i].voted == Some(view))
  {
    hide Certified, SafeProposalLock, InsertAndUpdate;
    assert s.replicas[i := s.replicas[i]] == s.replicas;
  }

  /** The replica is left waiting to vote on the header exactly when the same reasons hold. */
  lemma HeaderWaitIff(cfg: Config, s: System, i: Validator, h: Header)
    requires |s.replicas| == |cfg.powers| && cfg.Honest(i)
    ensures var r, t := s.replicas[i], Step(cfg, s, OnHeader(i, h, true));
      && t.votes == s.votes
      && t.replicas[i].awaiting
         == if h.block.Node? && Certified(cfg, s, Cert(h.block.justifyView, h.block.parent))
               && (h.tcHighQc.Some? ==> Certified(cfg, s, h.tcHighQc.value)) && Admits(r, h.block, h.tcHighQc)
            then Some(h) else r.awaiting
  {
    hide Certified, SafeProposalLock, Admits, IsCommittedBlock;
    if h.block.Node? { LockRuleIff(s.replicas[i], h.block, h.tcHighQc); }
  }

  /** The vote on the awaited header is cast by the lock as it stands then, for the same reasons. */
  lemma HeaderVoteIff(cfg: Config, s: System, i: Validator)
    requires |s.replicas| == |cfg.powers| && cfg.Honest(i)
    ensures var r := s.replicas[i];
      Step(cfg, s, CastHeaderVote(i)).votes
      == if r.awaiting.Some? && r.awaiting.value.block.Node?
            && (r.voted.None? || r.voted.value < r.awaiting.value.view)
            && Admits(r, r.awaiting.value.block, r.awaiting.value.tcHighQc)
         then s.votes + {Vote(i, r.awaiting.value.view, r.awaiting.value.block)} else s.votes
  {
    hide SafeProposalLock, Admits;
    var r := s.replicas[i];
    if r.awaiting.Some? && r.awaiting.value.block.Node? {
      LockRuleIff(r, r.awaiting.value.block, r.awaiting.value.tcHighQc);
    }
  }
}
