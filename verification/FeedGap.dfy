/**
 The one way the feed can skip: while no frontier has been written yet, a height the app still
 needs may leave the tree, and the next pass starts above it. The run below reaches that from a
 fresh store with the pruner at its smallest retention.
 */
module FeedGap {
  import opened Options
  import opened BlockTree
  import opened CommittedFeed
  import opened FeedRuns
  import opened FeedPasses

  /** The smallest retention the pruner can be set to. */
  const MIN_BLOCK_TREE_RETENTION: nat := 8

  function ChainBlock(h: nat): Block {
    Block(h, if h == 0 then None else Some(h - 1))
  }

  function ChainHash(h: nat): Hash {
    h
  }

  /** A whole committed chain 0..=n whose block at height h has hash h. */
  function Chain(n: nat): Store {
    Store(map h: nat | 0 <= h <= n :: ChainBlock(h), map h: nat | 0 <= h <= n :: ChainHash(h), Some(n), None, None)
  }

  lemma Snoc(labels: seq<Label>, l: Label)
    ensures Exec(FRESH, labels + [l]) == Step(Exec(FRESH, labels), l)
  {
    assert (labels + [l])[..|labels|] == labels;
  }

  lemma ChainReadable(n: nat)
    ensures forall h: nat :: Readable(Chain(n), h) <==> h <= n
    ensures HighestHeight(Chain(n)) == Some(n)
  {
  }

  lemma ChainIndex(n: nat)
    ensures WellIndexed(Chain(n)) && IndexedBelow(Chain(n))
  {
    hide Linked;
  }

  lemma ChainLinked(n: nat)
    ensures Linked(Chain(n))
  {
  }

  lemma ChainInv(n: nat)
    ensures StoreInv(Chain(n))
  {
    ChainIndex(n);
    ChainLinked(n);
    hide Linked, WellIndexed, IndexedBelow;
  }

  /** The chain with one more block, not committed yet. */
  function Extended(n: nat): Store {
    Chain(n).(blocks := Chain(n + 1).blocks)
  }

  lemma ExtendedInv(n: nat)
    ensures StoreInv(Extended(n))
  {
  }

  lemma ExtendedBlocks(n: nat)
    ensures Chain(n).(blocks := Chain(n).blocks[n + 1 := ChainBlock(n + 1)]) == Extended(n)
    ensures Extended(n).index[n + 1 := n + 1] == Chain(n + 1).index
    ensures forall h | h in Chain(n).index :: Chain(n).index[h] != n + 1
    ensures n + 1 !in Chain(n).blocks && n + 1 in Extended(n).blocks
    ensures Extended(n).blocks[n + 1] == Block(n + 1, Extended(n).highest)
  {
    assert Chain(n).blocks[n + 1 := ChainBlock(n + 1)] == Chain(n + 1).blocks;
  }

  lemma StepInsert(s: State, b: Hash, block: Block, c: Store)
    requires s.pc.Idle? && b !in s.store.blocks && c == s.store.(blocks := s.store.blocks[b := block]) && Linked(c)
    requires forall h | h in s.store.index :: s.store.index[h] != b
    ensures Step(s, Insert(b, block)) == s.(store := c)
  {
  }

  lemma StepCommit(s: State, b: Hash, c: Store)
    requires s.pc.Idle? && Linked(s.store) && c == CommitStore(s.store, b)
    ensures Step(s, Commit(b)) == s.(store := c)
  {
  }

  lemma GrowChain(s: State, n: nat)
    requires s.pc.Idle? && s.store == Chain(n)
    ensures Step(Step(s, Insert(n + 1, ChainBlock(n + 1))), Commit(n + 1)) == s.(store := Chain(n + 1))
  {
    ExtendedBlocks(n);
    ExtendedInv(n);
    var c := Extended(n);
    StepInsert(s, n + 1, ChainBlock(n + 1), c);
    CommitChild(c, n + 1);
    StepCommit(s.(store := c), n + 1, Chain(n + 1));
  }

  lemma GrowTo(labels: seq<Label>, n: nat, m: nat) returns (grown: seq<Label>)
    requires Exec(FRESH, labels).pc.Idle? && Exec(FRESH, labels).store == Chain(n) && n <= m
    ensures Exec(FRESH, grown) == Exec(FRESH, labels).(store := Chain(m))
    ensures forall l | l in grown :: l in labels || CommitOnly(l)
    decreases m - n
  {
    grown := labels;
    if n < m {
      var insert, commit := Insert(n + 1, ChainBlock(n + 1)), Commit(n + 1);
      Snoc(labels, insert);
      Snoc(labels + [insert], commit);
      GrowChain(Exec(FRESH, labels), n);
      grown := GrowTo(labels + [insert] + [commit], n + 1, m);
    }
  }

  lemma BootFresh() returns (labels: seq<Label>)
    ensures Exec(FRESH, labels) == FRESH.(pc := Idle, store := Chain(0))
    ensures forall l | l in labels :: CommitOnly(l)
  {
    var insert := Insert(0, ChainBlock(0));
    var s0 := FRESH.(pc := Idle);
    assert Exec(FRESH, []) == FRESH;
    Snoc([], Boot);
    assert LowerFed(EMPTY_STORE, FRESH.app) == EMPTY_STORE;
    Snoc([] + [Boot], insert);
    Snoc([] + [Boot] + [insert], Commit(0));
    labels := [] + [Boot] + [insert] + [Commit(0)];
    var c := EMPTY_STORE.(blocks := map[0 := ChainBlock(0)]);
    assert EMPTY_STORE.blocks[0 := ChainBlock(0)] == c.blocks;
    assert Step(s0, insert) == s0.(store := c);
    CommitChild(c, 0);
    assert c.index[0 := 0] == Chain(0).index && c.blocks == Chain(0).blocks;
  }

  /** Three ticks hand height 0 to the app. */
  lemma TakeFirst(s: State)
    requires s == FRESH.(pc := Idle, store := Chain(0))
    ensures TickStep(TickStep(TickStep(s)))
         == s.(loop := Loop(0, false, None, 0), pc := Recheck(0), app := App([0], false, []), calls := [0])
  {
    ChainReadable(0);
    var t1 := s.(loop := Loop(0, false, None, 0), pc := Check(0));
    assert TickStep(s) == t1;
    assert TickStep(t1) == t1.(pc := Callback(0));
    assert FRESH.calls + [0] == [0] && FRESH.app.durable + [0] == [0];
  }

  /** A latch before the recheck ends the pass with nothing counted. */
  lemma LatchEndsPass(s: State)
    requires s.pc.Recheck? && s.loop.lastFed.None?
    ensures Step(Step(Step(s, Latch), Tick), Tick) == s.(app := s.app.(latched := true), pc := Idle)
  {
    var t := s.(app := s.app.(latched := true));
    assert Step(s, Latch) == t;
    assert Step(t, Tick) == t.(pc := Write);
  }

  /** The app takes height 0 ... */
  lemma TakeFirstRun() returns (labels: seq<Label>)
    ensures Exec(FRESH, labels) == State(Chain(0), App([0], false, []), Recheck(0), Loop(0, false, None, 0), [0])
    ensures forall l | l in labels :: CommitOnly(l)
  {
    var up := BootFresh();
    TakeFirst(Exec(FRESH, up));
    Snoc(up, Tick);
    Snoc(up + [Tick], Tick);
    Snoc(up + [Tick] + [Tick], Tick);
    labels := up + [Tick] + [Tick] + [Tick];
  }

  /** ... and fail-stops before the frontier is written. */
  lemma TakeFirstThenLatch() returns (labels: seq<Label>)
    ensures Exec(FRESH, labels) == State(Chain(0), App([0], true, []), Idle, Loop(0, false, None, 0), [0])
    ensures forall l | l in labels :: CommitOnly(l)
  {
    var taken := TakeFirstRun();
    LatchEndsPass(Exec(FRESH, taken));
    Snoc(taken, Latch);
    Snoc(taken + [Latch], Tick);
    Snoc(taken + [Latch] + [Tick], Tick);
    labels := taken + [Latch] + [Tick] + [Tick];
  }

  /** Pruning 0..=10 at the smallest retention deletes heights 0 and 1. */
  lemma PrunedChain(t: Store)
    requires t == PruneStore(Chain(10), MIN_BLOCK_TREE_RETENTION)
    ensures StoreInv(t) && t.fed.None? && HighestHeight(t) == Some(10) && Lowest(t) == 2
    ensures forall h: nat :: Readable(t, h) <==> 2 <= h <= 10
  {
    ChainInv(10);
    ChainReadable(10);
    assert PruneEnd(Chain(10), MIN_BLOCK_TREE_RETENTION) == 2;
    PruneKeepsOneChain(Chain(10), MIN_BLOCK_TREE_RETENTION);
    PruneRangeDeletes(Chain(10), 0, 2);
    PruneRangeReadable(Chain(10), 0, 2);
  }

  /** An app that stopped at height 0 before any frontier was written skips height 1. */
  lemma GapAfterPrune(s: State)
    requires s.pc.Idle? && s.app == App([0], false, [])
    requires s.store == PruneStore(Chain(10), MIN_BLOCK_TREE_RETENTION)
    ensures !NoSkip(s.store, s.app) && !Contiguous(QuietPass(s).app.durable)
  {
    PrunedChain(s.store);
    assert Readable(s.store, 2);
    PassContiguousIffNoSkip(s);
  }

  lemma PruneThenRestart(s: State, t: Store)
    requires s.pc.Idle? && t == PruneStore(s.store, MIN_BLOCK_TREE_RETENTION) && t.fed.None?
    ensures Step(Step(Step(s, Prune(MIN_BLOCK_TREE_RETENTION)), Crash), Boot)
         == State(t, s.app.Restarted(), Idle, NO_LOOP, [])
  {
    assert Step(s, Prune(MIN_BLOCK_TREE_RETENTION)) == s.(store := t);
  }

  /**
   A run from a fresh store, with nothing lost but what the pruner deletes at its smallest
   retention, after which one undisturbed pass leaves the app with a gap.
   */
  lemma UnanchoredPruneSkips() returns (labels: seq<Label>)
    ensures forall l | l in labels :: CommitOnly(l) || l == Prune(MIN_BLOCK_TREE_RETENTION)
    ensures var s := Exec(FRESH, labels);
      s.pc.Idle? && !s.app.latched && !NoSkip(s.store, s.app) && !Contiguous(QuietPass(s).app.durable)
  {
    var first := TakeFirstThenLatch();
    var grown := GrowTo(first, 0, 10);
    var prune, t := Prune(MIN_BLOCK_TREE_RETENTION), PruneStore(Chain(10), MIN_BLOCK_TREE_RETENTION);
    PrunedChain(t);
    PruneThenRestart(Exec(FRESH, grown), t);
    Snoc(grown, prune);
    Snoc(grown + [prune], Crash);
    Snoc(grown + [prune] + [Crash], Boot);
    labels := grown + [prune] + [Crash] + [Boot];
    GapAfterPrune(Exec(FRESH, labels));
  }
}
