/**
 The coalesced-checkpoint pipeline of one node: the execution thread E closes its open window into
 a checkpoint, hands it to the flush worker W (at most one in flight) and counts it; W writes it,
 counts the write and frees the slot. The node can be killed and restarted at any moment.
 */
module Checkpoints {
  /** Attest heights: a block at a multiple of this always closes a checkpoint. */
  const STRIDE: nat := 100

  /** E: between blocks, waiting to hand over the checkpoint at its height, handed over but not
      yet counted, or stopped by a failed hand-over. `upkeep`: as part of the block just executed, which
      then still counts as queued; otherwise between blocks, at a barrier or the shutdown. */
  datatype Executor = Ready | Closing(upkeep: bool) | Handed(upkeep: bool) | Stopped(upkeep: bool)

  /** W: free, writing a checkpoint, written but not counted, counted but still holding the slot. */
  datatype Worker = Free | Writing(height: nat) | Landed | Counted

  /** `jobs` lists the heights handed to W since boot; the two counters restart at 0 with the process. */
  datatype Node = Node(
    committed: nat,
    undispatched: nat,
    executed: nat,
    base: nat,
    durable: nat,
    executor: Executor,
    worker: Worker,
    submits: nat,
    writes: nat,
    jobs: seq<nat>,
    failed: bool)

  datatype Label =
    | CommitBlock
    | Dispatch
    | Execute(early: bool)
    | Drain
    | HandOver
    | CountSubmit
    | Land
    | CountWrite
    | Release
    | Fail
    | Restart

  const GENESIS := Node(0, 0, 0, 0, 0, Ready, Free, 0, 0, [], false)

  predicate Due(height: nat, early: bool) {
    height % STRIDE == 0 || early
  }

  function Step(s: Node, l: Label): Node {
    match l
    case CommitBlock => s.(committed := s.committed + 1, undispatched := s.undispatched + 1)
    case Dispatch => if s.undispatched > 0 then s.(undispatched := s.undispatched - 1) else s
    case Execute(early) =>
      if s.executor.Ready? && s.executed + s.undispatched < s.committed then
        s.(executed := s.executed + 1, executor := if Due(s.executed + 1, early) then Closing(true) else Ready)
      else s
    case Drain => if s.executor.Ready? && s.base < s.executed then s.(executor := Closing(false)) else s
    case HandOver =>
      if !s.executor.Closing? then s
      else if s.failed then s.(submits := s.submits + 1, executor := Stopped(s.executor.upkeep))
      else if s.worker.Free? then
        s.(worker := Writing(s.executed), base := s.executed, jobs := s.jobs + [s.executed],
           executor := Handed(s.executor.upkeep))
      else s
    case CountSubmit => if s.executor.Handed? then s.(submits := s.submits + 1, executor := Ready) else s
    case Land => if s.worker.Writing? && !s.failed then s.(durable := s.worker.height, worker := Landed) else s
    case CountWrite => if s.worker.Landed? then s.(writes := s.writes + 1, worker := Counted) else s
    case Release => if s.worker.Counted? then s.(worker := Free) else s
    case Fail => s.(failed := true)
    case Restart =>
      if s.durable <= s.committed then
        Node(s.committed, s.committed - s.durable, s.durable, s.durable, s.durable, Ready, Free, 0, 0, [], false)
      else s
  }

  function Run(s: Node, labels: seq<Label>): Node {
    if labels == [] then s else Step(Run(s, labels[..|labels| - 1]), labels[|labels| - 1])
  }

  // ------------------------------------------------------------------ what every step keeps

  /** The next height that must close a checkpoint. */
  function NextForced(h: nat): nat {
    (h / STRIDE + 1) * STRIDE
  }

  ghost predicate Inv(s: Node) {
    && s.base <= s.executed && s.executed + s.undispatched <= s.committed
    && (s.worker.Writing? ==> s.worker.height == s.base && s.durable < s.base <= NextForced(s.durable))
    && (!s.worker.Writing? ==> s.durable == s.base)
    && (s.executor.Ready? || !s.executor.upkeep ==> s.executed < NextForced(s.base))
    && (s.executor.Handed? ==> s.executed == s.base)
    && s.base < s.executed + 1 <= NextForced(s.base) + 1
    && (s.executor.Closing? ==> s.base < s.executed)
    && (s.jobs != [] ==> s.jobs[|s.jobs| - 1] == s.base)
    && (s.worker.Writing? && |s.jobs| > 1 ==> s.jobs[|s.jobs| - 2] == s.durable)
    && (forall i, j | 0 <= i <= j < |s.jobs| :: s.jobs[i] <= s.jobs[j])
    && s.submits == |s.jobs| - (if s.executor.Handed? then 1 else 0) + (if s.executor.Stopped? then 1 else 0)
    && s.writes == |s.jobs| - (if s.worker.Writing? || s.worker.Landed? then 1 else 0)
    && (s.worker.Landed? || s.worker.Counted? || s.worker.Writing? ==> s.jobs != [])
    && (s.executor.Stopped? ==> s.failed)
  }

  /** The forced height is at most a stride away, and is the first multiple of the stride. */
  lemma NextForcedBounds(h: nat)
    ensures h < NextForced(h) <= h + STRIDE && NextForced(h) % STRIDE == 0
    ensures forall k: nat | h < k <= NextForced(h) :: k % STRIDE == 0 <==> k == NextForced(h)
  {
  }

  lemma StepKeepsInv(s: Node, l: Label)
    requires Inv(s)
    ensures Inv(Step(s, l))
  {
    hide NextForced;
    NextForcedBounds(s.base);
    NextForcedBounds(s.durable);
    NextForcedBounds(s.executed);
  }

  lemma {:induction false} RunKeepsInv(s: Node, labels: seq<Label>)
    requires Inv(s)
    ensures Inv(Run(s, labels))
  {
    if labels != [] {
      RunKeepsInv(s, labels[..|labels| - 1]);
      StepKeepsInv(Run(s, labels[..|labels| - 1]), labels[|labels| - 1]);
    }
  }

  lemma ReachableInv(labels: seq<Label>)
    ensures Inv(Run(GENESIS, labels))
  {
    RunKeepsInv(GENESIS, labels);
  }

  // ------------------------------------------------------------------ the two counters

  /**
   How far the two counters can be apart, in every reachable state, and exactly when they leave
   `writes <= submits <= writes + 1`. A submit is counted after the hand-over, so the write can be
   counted first; and a failed hand-over is counted too, so submits can lead by two.
   */
  lemma CounterBounds(labels: seq<Label>)
    ensures var s := Run(GENESIS, labels);
      && s.writes <= s.submits + 1
      && (s.writes == s.submits + 1 <==> s.executor.Handed? && !(s.worker.Writing? || s.worker.Landed?))
      && s.submits <= s.writes + 2
      && (s.submits == s.writes + 2 <==> s.executor.Stopped? && (s.worker.Writing? || s.worker.Landed?))
  {
    ReachableInv(labels);
  }

  lemma {:induction false} RunCons(s: Node, l: Label, rest: seq<Label>)
    ensures Run(s, [l] + rest) == Run(Step(s, l), rest)
  {
    if rest != [] {
      var before := rest[..|rest| - 1];
      assert ([l] + rest)[..|rest|] == [l] + before;
      RunCons(s, l, before);
    }
  }

  lemma RunThree(s: Node, a: Label, b: Label, c: Label)
    ensures Run(s, [a, b, c]) == Step(Step(Step(s, a), b), c)
  {
    hide Step;
    RunCons(s, a, [b, c]);
    assert [a, b, c] == [a] + [b, c] && [b, c] == [b] + [c];
    RunCons(Step(s, a), b, [c]);
    RunCons(Step(Step(s, a), b), c, []);
    assert [c] == [c] + [];
  }

  lemma {:induction false} RunConcat(s: Node, a: seq<Label>, b: seq<Label>)
    ensures Run(s, a + b) == Run(Run(s, a), b)
    decreases |b|
  {
    if b == [] {
      assert a + b == a;
    } else {
      assert (a + b)[..|a + b| - 1] == a + b[..|b| - 1];
      RunConcat(s, a, b[..|b| - 1]);
    }
  }

  lemma RunSix(s: Node, a: Label, b: Label, c: Label, d: Label, e: Label, f: Label)
    ensures Run(s, [a, b, c, d, e, f]) == Step(Step(Step(Step(Step(Step(s, a), b), c), d), e), f)
  {
    hide Step, Run;
    RunConcat(s, [a, b, c], [d, e, f]);
    assert [a, b, c, d, e, f] == [a, b, c] + [d, e, f];
    RunThree(s, a, b, c);
    RunThree(Run(s, [a, b, c]), d, e, f);
  }

  /** A reachable state with more counted writes than counted submits. */
  lemma WritesCanLead()
    ensures var s := Run(GENESIS, [CommitBlock, Dispatch, Execute(true), HandOver, Land, CountWrite]);
      s.writes == 1 && s.submits == 0
  {
    RunSix(GENESIS, CommitBlock, Dispatch, Execute(true), HandOver, Land, CountWrite);
  }

  /** A reachable state with two more counted submits than counted writes: the second hand-over failed. */
  lemma SubmitsCanLeadByTwo()
    ensures var s := Run(GENESIS, [CommitBlock, Dispatch, Execute(true), HandOver, CountSubmit, CommitBlock]
                                  + [Dispatch, Execute(true), Fail] + [HandOver]);
      s.submits == 2 && s.writes == 0
  {
    hide Run;
    var first, second := [CommitBlock, Dispatch, Execute(true), HandOver, CountSubmit, CommitBlock],
        [Dispatch, Execute(true), Fail];
    RunConcat(GENESIS, first, second);
    RunConcat(GENESIS, first + second, [HandOver]);
    RunSix(GENESIS, CommitBlock, Dispatch, Execute(true), HandOver, CountSubmit, CommitBlock);
    var p := GENESIS.(committed := 1, executed := 1, executor := Closing(true));
    assert Step(Step(Step(GENESIS, CommitBlock), Dispatch), Execute(true)) == p;
    var q := p.(worker := Writing(1), base := 1, jobs := [1], executor := Ready, submits := 1);
    assert Step(Step(p, HandOver), CountSubmit) == q;
    var r := q.(committed := 2, undispatched := 1);
    RunThree(r, Dispatch, Execute(true), Fail);
    var t := r.(undispatched := 0, executed := 2, executor := Closing(true), failed := true);
    assert Step(Step(Step(r, Dispatch), Execute(true)), Fail) == t;
    RunOne(t, HandOver);
  }

  lemma RunOne(s: Node, l: Label)
    ensures Run(s, [l]) == Step(s, l)
  {
    assert [l][..0] == [];
  }

  /** What stays true of an earlier moment while the process lives: jobs are only appended, at heights executed since. */
  ghost predicate After(s: Node, t: Node) {
    && s.executed <= t.executed && s.jobs <= t.jobs
    && (forall i | |s.jobs| <= i < |t.jobs| :: s.executed <= t.jobs[i])
    && (s.executor.Stopped? ==> t.executor.Stopped? && t.jobs == s.jobs)
  }

  lemma StepKeepsAfter(s: Node, t: Node, l: Label)
    requires Inv(s) && Inv(t) && After(s, t) && !l.Restart?
    ensures After(s, Step(t, l))
  {
  }

  lemma {:induction false} RunAfter(s: Node, labels: seq<Label>)
    requires Inv(s) && Restart !in labels
    ensures After(s, Run(s, labels)) && Inv(Run(s, labels))
  {
    if labels != [] {
      var before := labels[..|labels| - 1];
      RunAfter(s, before);
      StepKeepsAfter(s, Run(s, before), labels[|labels| - 1]);
      StepKeepsInv(Run(s, before), labels[|labels| - 1]);
    }
  }

  /**
   The wait's proof, for every run and every moment of it: with `c0` submits counted at some
   moment, and the process alive since, `c0 + 1` counted writes mean that the durable state covers
   every block executed at that moment.
   */
  lemma WaitCoversExecuted(before: seq<Label>, since: seq<Label>)
    requires Restart !in since
    requires var s := Run(GENESIS, before); Run(s, since).writes >= s.submits + 1
    ensures var s := Run(GENESIS, before); Run(s, since).durable >= s.executed
  {
    var s := Run(GENESIS, before);
    ReachableInv(before);
    RunAfter(s, since);
    var t := Run(s, since);
    assert s.executed <= t.jobs[s.submits];
    assert t.jobs[s.submits] <= t.jobs[t.writes - 1];
  }

  lemma StepKeepsDurable(s: Node, l: Label)
    requires Inv(s)
    ensures Step(s, l).durable >= s.durable
  {
  }

  /** The durable state never goes back, restarts included. */
  lemma {:induction false} DurableGrows(s: Node, labels: seq<Label>)
    requires Inv(s)
    ensures Run(s, labels).durable >= s.durable
  {
    if labels != [] {
      hide Step, Inv;
      DurableGrows(s, labels[..|labels| - 1]);
      RunKeepsInv(s, labels[..|labels| - 1]);
      StepKeepsDurable(Run(s, labels[..|labels| - 1]), labels[|labels| - 1]);
    }
  }

  /** With a restart in between, `c0 + 1` writes prove nothing: the counters began again. */
  lemma RestartVoidsWait()
    ensures var s := Run(GENESIS, [CommitBlock, CommitBlock, Dispatch, Dispatch, Execute(false), Execute(false)]);
      var t := Run(s, [Restart, Dispatch, Execute(true), HandOver, Land, CountWrite]);
      t.writes >= s.submits + 1 && t.durable < s.executed
  {
    hide Run;
    RunSix(GENESIS, CommitBlock, CommitBlock, Dispatch, Dispatch, Execute(false), Execute(false));
    var p := GENESIS.(committed := 2);
    assert Step(Step(Step(Step(GENESIS, CommitBlock), CommitBlock), Dispatch), Dispatch) == p;
    assert Step(p, Execute(false)) == p.(executed := 1);
    var s := p.(executed := 2);
    assert Step(p.(executed := 1), Execute(false)) == s;
    RunSix(s, Restart, Dispatch, Execute(true), HandOver, Land, CountWrite);
    var q := p.(undispatched := 1, executed := 1, executor := Closing(true));
    assert Step(Step(Step(s, Restart), Dispatch), Execute(true)) == q;
    var t := q.(worker := Writing(1), base := 1, jobs := [1], executor := Handed(true));
    assert Step(q, HandOver) == t;
  }

  // ------------------------------------------------------------------ the crash gate

  /** Blocks the gate counts in E's queue: dispatched and not yet finished, upkeep included. */
  function QueueDepth(s: Node): int {
    s.committed - s.undispatched - s.executed + (if !s.executor.Ready? && s.executor.upkeep then 1 else 0)
  }

  /** What the restarted node replays: committed minus durable. */
  function Gap(s: Node): int {
    s.committed - s.durable
  }

  const PER_BLOCK_REWIND_SLACK: nat := 2
  const CHECKPOINTS_IN_REWIND: nat := 2
  const MAX_REWIND_HARD_CAP: nat := PER_BLOCK_REWIND_SLACK + CHECKPOINTS_IN_REWIND * STRIDE

  /** In every reachable state at most two checkpoint spans are executed and not durable, and two whole ones only
      while E waits to close after a block. */
  lemma ExecutedNotDurable(labels: seq<Label>)
    ensures var s := Run(GENESIS, labels);
      && s.durable <= s.executed <= s.durable + CHECKPOINTS_IN_REWIND * STRIDE
      && (s.executor.Ready? || !s.executor.upkeep ==> s.executed < s.durable + CHECKPOINTS_IN_REWIND * STRIDE)
  {
    ReachableInv(labels);
    var s := Run(GENESIS, labels);
    NextForcedBounds(s.base);
    NextForcedBounds(s.durable);
  }

  /** A kill in any reachable state replays, beyond the queue, less than two spans and the undispatched blocks. */
  lemma KillRewind(labels: seq<Label>)
    ensures var s := Run(GENESIS, labels);
      Gap(s) - QueueDepth(s) < CHECKPOINTS_IN_REWIND * STRIDE + s.undispatched
  {
    ExecutedNotDurable(labels);
  }

  // The bound is attained: two whole spans executed, none durable.

  /** The state after `n` more blocks, the last of them closing a checkpoint when `closes`. */
  function Advanced(s: Node, n: nat, closes: bool): Node {
    s.(committed := s.committed + n, executed := s.executed + n, executor := if closes then Closing(true) else Ready)
  }

  lemma OneBlock(s: Node)
    requires s.executor.Ready? && s.executed + s.undispatched == s.committed
    ensures Run(s, [CommitBlock, Dispatch, Execute(false)]) == Advanced(s, 1, Due(s.executed + 1, false))
  {
    hide Run, Step, Due;
    RunThree(s, CommitBlock, Dispatch, Execute(false));
    BlockSteps(s, s.(committed := s.committed + 1));
  }

  lemma BlockSteps(s: Node, t: Node)
    requires s.executor.Ready? && s.executed + s.undispatched == s.committed && t == s.(committed := s.committed + 1)
    ensures Step(Step(s, CommitBlock), Dispatch) == t
    ensures Step(t, Execute(false)) == Advanced(s, 1, Due(s.executed + 1, false))
  {
    hide Due;
  }

  lemma ClosesAtStride(e: nat, n: nat)
    requires e % STRIDE == 0 && 0 < n <= STRIDE
    ensures (e + n) % STRIDE == 0 <==> n == STRIDE
  {
    NextForcedBounds(e);
    assert NextForced(e) == e + STRIDE;
  }

  lemma NextBlock(s: Node, n: nat)
    requires s.executor.Ready? && s.executed + s.undispatched == s.committed && s.executed % STRIDE == 0 && 0 < n <= STRIDE
    ensures Run(Advanced(s, n - 1, false), [CommitBlock, Dispatch, Execute(false)]) == Advanced(s, n, n == STRIDE)
  {
    hide Step, Run;
    OneBlock(Advanced(s, n - 1, false));
    ClosesAtStride(s.executed, n);
  }

  /** A stretch of blocks from a multiple of the stride up to the next. */
  lemma {:induction false} ManyBlocks(s: Node, n: nat) returns (labels: seq<Label>)
    requires s.executor.Ready? && s.executed + s.undispatched == s.committed && s.executed % STRIDE == 0 && n <= STRIDE
    ensures Run(s, labels) == Advanced(s, n, n == STRIDE)
  {
    labels := [];
    if n > 0 {
      hide Step, Run, Due;
      var before := ManyBlocks(s, n - 1);
      labels := before + [CommitBlock, Dispatch, Execute(false)];
      RunConcat(s, before, [CommitBlock, Dispatch, Execute(false)]);
      NextBlock(s, n);
    }
  }

  /** Two whole spans: the first handed over and never written, the second waiting to close. */
  lemma TwoSpans(n: nat) returns (labels: seq<Label>)
    requires n == STRIDE
    ensures var s := Run(GENESIS, labels);
      s.committed == s.executed == 2 * n && s.durable == 0 && s.undispatched == 0 && s.executor == Closing(true)
  {
    hide Run;
    var first := ManyBlocks(GENESIS, n);
    var s := Advanced(GENESIS, n, true);
    RunThree(s, HandOver, CountSubmit, Release);
    var t := s.(worker := Writing(n), base := n, jobs := [n], executor := Ready, submits := 1);
    assert Step(Step(Step(s, HandOver), CountSubmit), Release) == t;
    var second := ManyBlocks(t, n);
    RunConcat(GENESIS, first, [HandOver, CountSubmit, Release]);
    RunConcat(GENESIS, first + [HandOver, CountSubmit, Release], second);
    labels := first + [HandOver, CountSubmit, Release] + second;
  }

  /** `u` commits change nothing but the committed and undispatched counts. */
  lemma {:induction false} Commits(s: Node, u: nat) returns (labels: seq<Label>)
    ensures Run(s, labels) == s.(committed := s.committed + u, undispatched := s.undispatched + u)
  {
    labels := [];
    if u > 0 {
      var before := Commits(s, u - 1);
      labels := before + [CommitBlock];
      assert labels[..|labels| - 1] == before;
    }
  }

  /** For every number of undispatched blocks, a reachable state that meets the bound: 199 plus that number. */
  lemma KillRewindIsTight(u: nat) returns (labels: seq<Label>)
    ensures var s := Run(GENESIS, labels);
      s.undispatched == u && Gap(s) - QueueDepth(s) == CHECKPOINTS_IN_REWIND * STRIDE - 1 + u
  {
    hide Run;
    var first := TwoSpans(STRIDE);
    var more := Commits(Run(GENESIS, first), u);
    RunConcat(GENESIS, first, more);
    labels := first + more;
  }

  /** The gate's rewind check passes a kill in this state. */
  predicate Accepted(s: Node) {
    Gap(s) - QueueDepth(s) <= MAX_REWIND_HARD_CAP
  }

  /** Every kill with `u` blocks committed and not yet dispatched is accepted. */
  ghost predicate AlwaysAccepted(u: nat) {
    forall labels | Run(GENESIS, labels).undispatched == u :: Accepted(Run(GENESIS, labels))
  }

  /** Exactly when the gate never rejects a correct fence: at most three blocks committed and undispatched. */
  lemma KillAcceptedIff(u: nat)
    ensures AlwaysAccepted(u) <==> u <= PER_BLOCK_REWIND_SLACK + 1
  {
    hide Run;
    if u <= PER_BLOCK_REWIND_SLACK + 1 {
      forall labels | Run(GENESIS, labels).undispatched == u ensures Accepted(Run(GENESIS, labels)) { KillRewind(labels); }
    } else {
      var labels := KillRewindIsTight(u);
      assert !Accepted(Run(GENESIS, labels));
    }
  }
}
