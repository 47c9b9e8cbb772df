/**
 The pipelined (Generic-phase) voting rules of a replica under one fixed validator set:
 certificates, the lock rule for proposals, what a certificate locks and commits, and the
 block-tree updates a replica runs before it votes.
 */
module Voting {
  import opened Options

  /** A block names its parent, the view of the certificate on that parent, and its data. */
  datatype Block = Genesis | Node(parent: Block, justifyView: nat, data: nat)

  datatype Cert = Cert(view: nat, block: Block)

  const GENESIS_CERT := Cert(0, Genesis)

  function Justify(b: Block): Cert
    requires b.Node?
  {
    Cert(b.justifyView, b.parent)
  }

  function Height(b: Block): nat {
    if b.Genesis? || b.parent.Genesis? then 0 else Height(b.parent) + 1
  }

  /** `b` is `a` or one of its descendants. */
  predicate Extends(b: Block, a: Block) {
    b == a || (b.Node? && Extends(b.parent, a))
  }

  // ------------------------------------------------------------------ quorums

  /** A validator is its position in the set; `powers` holds everyone's voting power. */
  type Validator = nat

  /** Power of the members of `s` among the first `n` validators. */
  function Power(powers: seq<nat>, s: set<Validator>, n: nat): nat
    requires n <= |powers|
  {
    if n == 0 then 0 else Power(powers, s, n - 1) + if n - 1 in s then powers[n - 1] else 0
  }

  function Total(powers: seq<nat>): nat {
    TotalOf(powers, |powers|)
  }

  function TotalOf(powers: seq<nat>, n: nat): nat
    requires n <= |powers|
  {
    if n == 0 then 0 else TotalOf(powers, n - 1) + powers[n - 1]
  }

  function Quorum(powers: seq<nat>): nat {
    Total(powers) * 2 / 3 + 1
  }

  predicate IsQuorum(powers: seq<nat>, s: set<Validator>) {
    Power(powers, s, |powers|) >= Quorum(powers)
  }

  lemma {:induction false} PowerSplits(powers: seq<nat>, a: set<Validator>, b: set<Validator>, n: nat)
    requires n <= |powers|
    ensures Power(powers, a, n) + Power(powers, b, n) == Power(powers, a + b, n) + Power(powers, a * b, n)
  {
    if n > 0 { PowerSplits(powers, a, b, n - 1); }
  }

  lemma {:induction false} PowerMonotone(powers: seq<nat>, a: set<Validator>, b: set<Validator>, n: nat)
    requires n <= |powers|
    requires forall i | 0 <= i < n && i in a :: i in b
    ensures Power(powers, a, n) <= Power(powers, b, n)
  {
    if n > 0 { PowerMonotone(powers, a, b, n - 1); }
  }

  lemma {:induction false} PowerAtMostTotal(powers: seq<nat>, a: set<Validator>, n: nat)
    requires n <= |powers|
    ensures Power(powers, a, n) <= TotalOf(powers, n)
  {
    if n > 0 { PowerAtMostTotal(powers, a, n - 1); }
  }

  /** Two quorums share a validator outside any set holding less than a third of the power. */
  lemma QuorumsMeet(powers: seq<nat>, a: set<Validator>, b: set<Validator>, faulty: set<Validator>) returns (v: Validator)
    requires IsQuorum(powers, a) && IsQuorum(powers, b)
    requires 3 * Power(powers, faulty, |powers|) < Total(powers)
    ensures v < |powers| && v in a && v in b && v !in faulty
  {
    var n := |powers|;
    PowerSplits(powers, a, b, n);
    PowerAtMostTotal(powers, a + b, n);
    if forall i | 0 <= i < n && i in a * b :: i in faulty {
      PowerMonotone(powers, a * b, faulty, n);
      assert false;
    }
    v :| v < n && v in a * b && v !in faulty;
  }

  // ------------------------------------------------------------------ a replica

  /** A checked proposal header whose body the replica waits for before it votes. */
  datatype Header = Header(view: nat, block: Block, tcHighQc: Option<Cert>)

  datatype Replica = Replica(
    tree: set<Block>,
    locked: Cert,
    highest: Cert,
    voted: Option<nat>,
    frontier: Option<Block>,
    awaiting: Option<Header>)

  const FRESH_REPLICA := Replica({}, GENESIS_CERT, GENESIS_CERT, None, None, None)

  predicate MayVote(r: Replica, view: nat) {
    r.voted.None? || r.voted.value < view
  }

  /** The locked block is the certified block, its parent or its grandparent, as far as the tree tells. */
  predicate ExtendsLocked(r: Replica, pc: Cert) {
    var b := pc.block;
    || b == r.locked.block
    || (b in r.tree && b.Node? &&
        (|| b.parent == r.locked.block
         || (b.parent in r.tree && b.parent.Node? && b.parent.parent == r.locked.block)))
  }

  predicate LockClause(r: Replica, pc: Cert) {
    pc.view > r.locked.view || ExtendsLocked(r, pc)
  }

  predicate CertifiesAboveLock(r: Replica, pc: Cert, b: Block) {
    pc != GENESIS_CERT && pc.block == b && pc.view > r.locked.view
  }

  /** The lock rule for a proposed block: the locked block itself, the lock clause on its
      justify, or a known certificate on the block above the lock. */
  predicate SafeProposalLock(r: Replica, b: Block, tcHighQc: Option<Cert>)
    requires b.Node?
  {
    || (r.locked != GENESIS_CERT && b == r.locked.block)
    || LockClause(r, Justify(b))
    || CertifiesAboveLock(r, r.highest, b)
    || (tcHighQc.Some? && CertifiesAboveLock(r, tcHighQc.value, b))
  }

  /** In the tree, at or below the committed height. */
  predicate IsCommittedBlock(r: Replica, b: Block) {
    b in r.tree && r.frontier.Some? && Height(b) <= Height(r.frontier.value)
  }

  /** The certificate to lock, if any: never the genesis one, and only forward in view. */
  function PcToLock(r: Replica, pc: Cert): Option<Cert> {
    if pc != GENESIS_CERT && pc.view > r.locked.view then Some(pc) else None
  }

  /** Two certificates in consecutive views commit the older one's block. */
  function BlockToCommit(r: Replica, pc: Cert): Option<Block> {
    if pc == GENESIS_CERT || pc.block !in r.tree || pc.block.Genesis? then None
    else
      var parentPc := Justify(pc.block);
      if parentPc == GENESIS_CERT || parentPc.block !in r.tree then None
      else if pc.view == parentPc.view + 1 && (r.frontier.None? || Height(parentPc.block) > Height(r.frontier.value))
      then Some(parentPc.block)
      else None
  }

  predicate AboveFrontier(r: Replica, b: Block) {
    r.frontier.None? || (b in r.tree && Height(b) > Height(r.frontier.value))
  }

  /** The oldest block the commit walk from `b` collects. */
  function WalkEnd(r: Replica, b: Block): Block {
    if b !in r.tree || b.Genesis? || Justify(b) == GENESIS_CERT || !AboveFrontier(r, b.parent) then b
    else WalkEnd(r, b.parent)
  }

  /** The walk errs: its oldest block is missing from the tree. */
  predicate CommitFails(r: Replica, b: Block) {
    AboveFrontier(r, b) && (WalkEnd(r, b) !in r.tree || WalkEnd(r, b).Genesis?)
  }

  /** The walk reaches the frontier, or genesis. */
  predicate CommitConnects(r: Replica, b: Block) {
    var last := WalkEnd(r, b);
    last in r.tree && last.Node? && (Justify(last) == GENESIS_CERT || Some(last.parent) == r.frontier)
  }

  predicate UpdateFails(r: Replica, pc: Cert) {
    BlockToCommit(r, pc).Some? && CommitFails(r, BlockToCommit(r, pc).value)
  }

  /** Steps 1 and 2 of an update: the highest certificate and the lock. */
  function UpdateLocksOnly(r: Replica, pc: Cert): Replica {
    r.(highest := if pc.view > r.highest.view then pc else r.highest,
       locked := PcToLock(r, pc).UnwrapOr(r.locked))
  }

  /** The whole update; a failed commit walk writes nothing. */
  function Update(r: Replica, pc: Cert): Replica {
    if UpdateFails(r, pc) then r
    else
      var t := UpdateLocksOnly(r, pc);
      var b := BlockToCommit(r, pc);
      if b.Some? && CommitConnects(r, b.value) then t.(frontier := b) else t
  }

  function InsertAndUpdate(r: Replica, b: Block): Replica
    requires b.Node?
  {
    Update(r.(tree := r.tree + {b}), Justify(b))
  }

  function RecordVote(r: Replica, view: nat): Replica {
    r.(voted := Some(view))
  }
}
