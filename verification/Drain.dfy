/**
 The drain verdict: an online tracker over samples of every validator's counters, and the scan
 that an attestation-live drain adds before it accepts.
 */
module Drain {
  import opened Options
  import AttestTraffic

  /** One scrape of one node; `Unusable` when a required metric is missing or invalid. */
  datatype Sample =
    | Unusable
    | Sample(committed: nat, mempool: nat, execQueue: nat, flush: nat, flow: seq<nat>, tradeWriter: nat,
        height: Option<nat>)

  const MAX_SAMPLE_GAP_S := 5.0
  const IDLE_EXEC_QUEUE_MAX: nat := 2

  /** The four flow counters: accepted, matched, native actions processed, resting. */
  const FLOW: seq<nat> := [0, 1, 2, 3]
  const ORDER_FLOW: seq<nat> := [0, 1, 3]

  datatype Config = Config(nodes: nat, quiet: real, feedLive: bool, maxLag: nat, feedMempoolMax: nat,
                           minHeight: Option<nat>, attestLive: bool, attestMempoolMax: nat) {
    function QuietKeys(): seq<nat> {
      if feedLive || attestLive then ORDER_FLOW else FLOW
    }

    function FinalMempoolMax(): nat {
      if feedLive then feedMempoolMax else 0
    }

    function MempoolMax(): nat {
      FinalMempoolMax() + if attestLive then attestMempoolMax else 0
    }

    function QueueMax(): nat {
      if feedLive then maxLag else IDLE_EXEC_QUEUE_MAX
    }
  }

  /** One observation of all nodes; `restarted` when the window was started anew at it. */
  datatype Obs = Obs(now: real, samples: seq<Sample>, restarted: bool)

  predicate Complete(cfg: Config, samples: seq<Sample>) {
    |samples| == cfg.nodes && forall i | 0 <= i < |samples| :: samples[i].Sample? && |samples[i].flow| == 4
  }

  predicate AnyReset(cfg: Config, samples: seq<Sample>, previous: seq<Sample>)
    requires Complete(cfg, samples) && Complete(cfg, previous)
  {
    exists i :: 0 <= i < |samples| &&
      (samples[i].committed < previous[i].committed || exists k :: 0 <= k < 4 && samples[i].flow[k] < previous[i].flow[k])
  }

  predicate AnyPending(cfg: Config, samples: seq<Sample>)
    requires Complete(cfg, samples)
  {
    exists i :: 0 <= i < |samples| &&
      (samples[i].mempool > cfg.MempoolMax() || samples[i].execQueue > cfg.QueueMax() || samples[i].flush > 0
          || samples[i].tradeWriter > 0)
  }

  predicate SameFlow(cfg: Config, a: seq<Sample>, b: seq<Sample>)
    requires Complete(cfg, a) && Complete(cfg, b)
  {
    forall i, k | 0 <= i < |a| && k in cfg.QuietKeys() :: a[i].flow[k] == b[i].flow[k]
  }

  predicate Advanced(cfg: Config, a: seq<Sample>, b: seq<Sample>)
    requires Complete(cfg, a) && Complete(cfg, b)
  {
    forall i | 0 <= i < |a| :: a[i].committed < b[i].committed
  }

  /** The accepting sample's own conditions: the mempool and every node's executed height. */
  predicate Accepting(cfg: Config, samples: seq<Sample>)
    requires Complete(cfg, samples)
  {
    && (cfg.attestLive ==> forall i | 0 <= i < |samples| :: samples[i].mempool <= cfg.FinalMempoolMax())
    && (cfg.minHeight.Some? ==> forall i | 0 <= i < |samples| ::
          samples[i].height.Some? && samples[i].height.value >= cfg.minHeight.value)
  }

  // ------------------------------------------------------------------ the declarative verdict

  predicate GapOk(trace: seq<Obs>, k: nat)
    requires k < |trace|
  {
    k > 0 ==> 0.0 < trace[k].now - trace[k - 1].now <= MAX_SAMPLE_GAP_S
  }

  /** Sample `k` is usable: complete, no gap before it, and no counter fell since a usable sample before it. */
  predicate Good(cfg: Config, trace: seq<Obs>, k: nat)
    requires k < |trace|
  {
    && Complete(cfg, trace[k].samples)
    && (k > 0 && Good(cfg, trace, k - 1) ==> !AnyReset(cfg, trace[k].samples, trace[k - 1].samples))
    && GapOk(trace, k)
  }

  predicate Eligible(cfg: Config, trace: seq<Obs>, k: nat)
    requires k < |trace|
  {
    Good(cfg, trace, k) && !AnyPending(cfg, trace[k].samples)
  }

  /** Every sample from `i` to `k` is eligible with the flow counters of `i`, and no restart came after `i`. */
  ghost predicate QuietWindow(cfg: Config, trace: seq<Obs>, i: nat, k: nat)
    requires i <= k < |trace|
  {
    && (forall j: nat | i <= j <= k :: Eligible(cfg, trace, j))
    && (forall j: nat | i <= j <= k && Eligible(cfg, trace, i)
        && Eligible(cfg, trace, j) :: SameFlow(cfg, trace[i].samples, trace[j].samples))
    && (forall j: nat | i < j < k :: !trace[j].restarted)
  }

  /** Which flow counters must stand still: all four, or without the processed one while a feed is live. */
  lemma SameFlowIff(cfg: Config, a: seq<Sample>, b: seq<Sample>)
    requires Complete(cfg, a) && Complete(cfg, b)
    ensures SameFlow(cfg, a, b) <==>
      forall i | 0 <= i < |a| ::
        && a[i].flow[0] == b[i].flow[0] && a[i].flow[1] == b[i].flow[1] && a[i].flow[3] == b[i].flow[3]
        && (a[i].flow[2] == b[i].flow[2] || cfg.feedLive || cfg.attestLive)
  {
    var keys := cfg.QuietKeys();
    assert keys == if cfg.feedLive || cfg.attestLive then [0, 1, 3] else [0, 1, 2, 3];
    assert 0 in keys && 1 in keys && 3 in keys && (2 in keys <==> !cfg.feedLive && !cfg.attestLive) by {
      assert keys[0] == 0 && keys[1] == 1 && keys[|keys| - 1] == 3;
      if !cfg.feedLive && !cfg.attestLive { assert keys[2] == 2; }
    }
  }

  /** A quiet window without a live feed holds every flow counter of every node constant. */
  lemma QuietWindowIsStill(cfg: Config, trace: seq<Obs>, i: nat, k: nat, j: nat, n: nat, c: nat)
    requires i <= j <= k < |trace| && QuietWindow(cfg, trace, i, k) && n < cfg.nodes && c < 4
    requires c == 2 ==> !cfg.feedLive && !cfg.attestLive
    ensures Complete(cfg, trace[i].samples) && Complete(cfg, trace[j].samples)
    ensures trace[j].samples[n].flow[c] == trace[i].samples[n].flow[c]
  {
    assert Eligible(cfg, trace, i) && Eligible(cfg, trace, j);
    SameFlowIff(cfg, trace[i].samples, trace[j].samples);
  }

  ghost predicate LongWindow(cfg: Config, trace: seq<Obs>, i: nat, k: nat)
    requires k < |trace|
  {
    && i < k && QuietWindow(cfg, trace, i, k) && trace[k].now - trace[i].now >= cfg.quiet
    && Complete(cfg, trace[i].samples) && Complete(cfg, trace[k].samples)
    && Advanced(cfg, trace[i].samples, trace[k].samples)
  }

  /** Some quiet window of the required length ends at sample `k`, with progress on every node. */
  ghost predicate Drained(cfg: Config, trace: seq<Obs>, k: nat)
    requires k < |trace|
  {
    && Eligible(cfg, trace, k) && Accepting(cfg, trace[k].samples)
    && exists i: nat :: LongWindow(cfg, trace, i, k)
  }

  /** A scrape with no more work waiting than the live feeds explain. */
  ghost predicate Calm(cfg: Config, x: Sample) {
    && x.Sample? && |x.flow| == 4 && x.flush == 0 && x.tradeWriter == 0
    && x.mempool <= (if cfg.feedLive then cfg.feedMempoolMax else 0) + (if cfg.attestLive then cfg.attestMempoolMax else 0)
    && x.execQueue <= (if cfg.feedLive then cfg.maxLag else 2)
  }

  ghost predicate AllCalm(cfg: Config, samples: seq<Sample>) {
    |samples| == cfg.nodes && forall n | 0 <= n < cfg.nodes :: Calm(cfg, samples[n])
  }

  /** From one calm scrape of all nodes to the next no commit or flow count falls. */
  ghost predicate NoFall(cfg: Config, a: seq<Sample>, b: seq<Sample>)
    requires AllCalm(cfg, a) && AllCalm(cfg, b)
  {
    forall n | 0 <= n < cfg.nodes ::
      && a[n].committed <= b[n].committed
      && a[n].flow[0] <= b[n].flow[0] && a[n].flow[1] <= b[n].flow[1]
      && a[n].flow[2] <= b[n].flow[2] && a[n].flow[3] <= b[n].flow[3]
  }

  /** Order flow stands still; native actions are processed only while a feed is live. */
  ghost predicate Still(cfg: Config, a: seq<Sample>, b: seq<Sample>)
    requires AllCalm(cfg, a) && AllCalm(cfg, b)
  {
    forall n | 0 <= n < cfg.nodes ::
      && a[n].flow[0] == b[n].flow[0] && a[n].flow[1] == b[n].flow[1] && a[n].flow[3] == b[n].flow[3]
      && (a[n].flow[2] == b[n].flow[2] || cfg.feedLive || cfg.attestLive)
  }

  /** What the last sample must show besides. */
  ghost predicate Final(cfg: Config, a: seq<Sample>, b: seq<Sample>)
    requires AllCalm(cfg, a) && AllCalm(cfg, b)
  {
    forall n | 0 <= n < cfg.nodes ::
      && a[n].committed < b[n].committed
      && (cfg.attestLive ==> b[n].mempool <= if cfg.feedLive then cfg.feedMempoolMax else 0)
      && (cfg.minHeight.Some? ==> b[n].height.Some? && cfg.minHeight.value <= b[n].height.value)
  }

  /** A drained window, told on the samples' own numbers. */
  ghost predicate CalmWindow(cfg: Config, trace: seq<Obs>, i: nat, k: nat) {
    && i < k < |trace| && trace[k].now - trace[i].now >= cfg.quiet
    && (forall j: nat | i <= j <= k :: AllCalm(cfg, trace[j].samples))
    && (forall j: nat | i < j <= k ::
          && 0.0 < trace[j].now - trace[j - 1].now <= 5.0
          && NoFall(cfg, trace[j - 1].samples, trace[j].samples) && Still(cfg, trace[i].samples, trace[j].samples))
    && (forall j: nat | i < j < k :: !trace[j].restarted)
    && Final(cfg, trace[i].samples, trace[k].samples)
  }

  lemma CalmIff(cfg: Config, samples: seq<Sample>)
    ensures AllCalm(cfg, samples) <==> Complete(cfg, samples) && !AnyPending(cfg, samples)
  {
  }

  lemma NoFallIff(cfg: Config, a: seq<Sample>, b: seq<Sample>)
    requires AllCalm(cfg, a) && AllCalm(cfg, b) && Complete(cfg, a) && Complete(cfg, b)
    ensures NoFall(cfg, a, b) <==> !AnyReset(cfg, b, a)
  {
    if !NoFall(cfg, a, b) {
      var n :| 0 <= n < cfg.nodes && !(a[n].committed <= b[n].committed && a[n].flow[0] <= b[n].flow[0]
        && a[n].flow[1] <= b[n].flow[1] && a[n].flow[2] <= b[n].flow[2] && a[n].flow[3] <= b[n].flow[3]);
      assert b[n].committed < a[n].committed || b[n].flow[0] < a[n].flow[0] || b[n].flow[1] < a[n].flow[1]
        || b[n].flow[2] < a[n].flow[2] || b[n].flow[3] < a[n].flow[3];
    }
  }

  lemma StillIff(cfg: Config, a: seq<Sample>, b: seq<Sample>)
    requires AllCalm(cfg, a) && AllCalm(cfg, b) && Complete(cfg, a) && Complete(cfg, b)
    ensures Still(cfg, a, b) <==> SameFlow(cfg, a, b)
  {
    SameFlowIff(cfg, a, b);
  }

  lemma FinalIff(cfg: Config, a: seq<Sample>, b: seq<Sample>)
    requires AllCalm(cfg, a) && AllCalm(cfg, b) && Complete(cfg, a) && Complete(cfg, b)
    ensures Final(cfg, a, b) <==> Advanced(cfg, a, b) && Accepting(cfg, b)
  {
  }

  /** A sample after a usable one is usable when it is complete, in time and no counter fell. */
  lemma StepIsGood(cfg: Config, trace: seq<Obs>, j: nat)
    requires 0 < j < |trace| && Good(cfg, trace, j - 1)
    ensures Good(cfg, trace, j) <==>
      && Complete(cfg, trace[j].samples) && 0.0 < trace[j].now - trace[j - 1].now <= 5.0
      && !AnyReset(cfg, trace[j].samples, trace[j - 1].samples)
  {
  }

  /**
   Drained, told on times, counters and heights alone: a window that starts at a usable sample,
   lasts the required time, and in which every node is calm, no counter falls and order flow stands
   still, with a commit on every node and the last sample's own conditions.
   */
  lemma DrainedIff(cfg: Config, trace: seq<Obs>, k: nat)
    requires k < |trace|
    ensures Drained(cfg, trace, k) <==>
      exists i: nat :: CalmWindow(cfg, trace, i, k) && i < |trace| && Good(cfg, trace, i)
  {
    hide Good, AllCalm, AnyPending, SameFlow, Accepting, Advanced, Complete;
    if Drained(cfg, trace, k) {
      var i: nat :| LongWindow(cfg, trace, i, k);
      WindowIsCalm(cfg, trace, i, k);
    }
    if i: nat :| CalmWindow(cfg, trace, i, k) && i < |trace| && Good(cfg, trace, i) {
      CalmIsWindow(cfg, trace, i, k);
    }
  }

  lemma WindowIsCalm(cfg: Config, trace: seq<Obs>, i: nat, k: nat)
    requires k < |trace| && LongWindow(cfg, trace, i, k) && Eligible(cfg, trace, k) && Accepting(cfg, trace[k].samples)
    ensures CalmWindow(cfg, trace, i, k) && Good(cfg, trace, i)
  {
    hide AnyPending, SameFlow, Accepting, Advanced, AllCalm, AnyReset, NoFall, Still, Final;
    forall j: nat | i <= j <= k ensures AllCalm(cfg, trace[j].samples) && Complete(cfg, trace[j].samples) {
      assert Eligible(cfg, trace, j);
      CalmIff(cfg, trace[j].samples);
    }
    forall j: nat | i < j <= k
      ensures 0.0 < trace[j].now - trace[j - 1].now <= 5.0
      ensures NoFall(cfg, trace[j - 1].samples, trace[j].samples) && Still(cfg, trace[i].samples, trace[j].samples)
    {
      assert Eligible(cfg, trace, j) && Eligible(cfg, trace, j - 1) && Eligible(cfg, trace, i);
      StepIsGood(cfg, trace, j);
      NoFallIff(cfg, trace[j - 1].samples, trace[j].samples);
      StillIff(cfg, trace[i].samples, trace[j].samples);
    }
    FinalIff(cfg, trace[i].samples, trace[k].samples);
    assert Eligible(cfg, trace, i);
  }

  lemma {:induction false} CalmIsGood(cfg: Config, trace: seq<Obs>, i: nat, k: nat, j: nat)
    requires CalmWindow(cfg, trace, i, k) && Good(cfg, trace, i) && i <= j <= k
    ensures Eligible(cfg, trace, j)
    decreases j
  {
    hide AnyPending, SameFlow, Accepting, Advanced, AllCalm, AnyReset, NoFall, Still, Final;
    CalmIff(cfg, trace[j].samples);
    if i < j {
      CalmIsGood(cfg, trace, i, k, j - 1);
      CalmIff(cfg, trace[j - 1].samples);
      NoFallIff(cfg, trace[j - 1].samples, trace[j].samples);
      StepIsGood(cfg, trace, j);
    }
  }

  lemma CalmIsWindow(cfg: Config, trace: seq<Obs>, i: nat, k: nat)
    requires CalmWindow(cfg, trace, i, k) && Good(cfg, trace, i)
    ensures Drained(cfg, trace, k)
  {
    hide AnyPending, SameFlow, Accepting, Advanced, AllCalm, AnyReset, NoFall, Still, Final;
    forall j: nat | i <= j <= k
      ensures Eligible(cfg, trace, j) && SameFlow(cfg, trace[i].samples, trace[j].samples)
    {
      CalmIsGood(cfg, trace, i, k, i);
      CalmIsGood(cfg, trace, i, k, j);
      if i < j {
        StillIff(cfg, trace[i].samples, trace[j].samples);
      } else {
        SameFlowIff(cfg, trace[i].samples, trace[i].samples);
      }
    }
    FinalIff(cfg, trace[i].samples, trace[k].samples);
    assert LongWindow(cfg, trace, i, k);
  }

  // ------------------------------------------------------------------ the base the tracker keeps

  /** The sample kept as the window's first after observing sample `k`, before any restart at it. */
  function BaseOf(cfg: Config, trace: seq<Obs>, k: nat): (b: Option<nat>)
    requires k < |trace|
    ensures b.Some? ==> b.value <= k
    decreases k
  {
    if !Eligible(cfg, trace, k) then None
    else
      var before := if k == 0 then None else if trace[k - 1].restarted then Some(k - 1) else BaseOf(cfg, trace, k - 1);
      if before.Some? && Complete(cfg, trace[before.value].samples)
          && SameFlow(cfg, trace[before.value].samples, trace[k].samples)
      then before else Some(k)
  }

  /** A window is only ever restarted at an eligible sample. */
  ghost predicate RestartsEligible(cfg: Config, trace: seq<Obs>) {
    forall j: nat | j < |trace| && trace[j].restarted :: Eligible(cfg, trace, j)
  }

  lemma WindowExtends(cfg: Config, trace: seq<Obs>, i: nat, k: nat)
    requires i <= k && k + 1 < |trace| && QuietWindow(cfg, trace, i, k) && Eligible(cfg, trace, k + 1)
    requires SameFlow(cfg, trace[i].samples, trace[k + 1].samples) && (i < k ==> !trace[k].restarted)
    ensures QuietWindow(cfg, trace, i, k + 1)
  {
  }

  lemma WindowShrinks(cfg: Config, trace: seq<Obs>, i: nat, k: nat)
    requires i <= k && k + 1 < |trace| && QuietWindow(cfg, trace, i, k + 1)
    ensures QuietWindow(cfg, trace, i, k) && SameFlow(cfg, trace[i].samples, trace[k + 1].samples)
    ensures i < k ==> !trace[k].restarted
  {
    assert Eligible(cfg, trace, i) && Eligible(cfg, trace, k + 1);
  }

  lemma SameFlowJoins(cfg: Config, a: seq<Sample>, b: seq<Sample>, c: seq<Sample>)
    requires Complete(cfg, a) && Complete(cfg, b) && Complete(cfg, c)
    requires SameFlow(cfg, a, b) && SameFlow(cfg, b, c)
    ensures SameFlow(cfg, a, c)
  {
  }

  /** `b` starts the longest quiet window ending at `k`. */
  ghost predicate Earliest(cfg: Config, trace: seq<Obs>, b: nat, k: nat)
    requires k < |trace|
  {
    && b <= k && QuietWindow(cfg, trace, b, k)
    && forall i: nat | i <= k && QuietWindow(cfg, trace, i, k) :: b <= i
  }

  /** Keeping the earliest base while the counters match, and starting anew otherwise, keeps the earliest. */
  lemma EarliestExtends(cfg: Config, trace: seq<Obs>, b: nat, k: nat)
    requires k + 1 < |trace| && Eligible(cfg, trace, k) && Eligible(cfg, trace, k + 1)
    requires b <= k && QuietWindow(cfg, trace, b, k) && (b < k ==> !trace[k].restarted)
    requires forall i: nat | i <= k && QuietWindow(cfg, trace, i, k) && (i < k ==> !trace[k].restarted) :: b <= i
    requires Eligible(cfg, trace, b)
    ensures Earliest(cfg, trace, if SameFlow(cfg, trace[b].samples, trace[k + 1].samples) then b else k + 1, k + 1)
  {
    hide SameFlow, Complete;
    var same := SameFlow(cfg, trace[b].samples, trace[k + 1].samples);
    if same {
      WindowExtends(cfg, trace, b, k);
    } else {
      OneSampleWindow(cfg, trace, k + 1);
    }
    var n := k + 1;
    forall i: nat | i <= k && QuietWindow(cfg, trace, i, n) ensures same && b <= i {
      WindowShrinks(cfg, trace, i, k);
      assert Eligible(cfg, trace, i);
      SameFlowJoins(cfg, trace[b].samples, trace[i].samples, trace[k + 1].samples);
    }
  }

  lemma OneSampleWindow(cfg: Config, trace: seq<Obs>, k: nat)
    requires k < |trace| && Eligible(cfg, trace, k)
    ensures QuietWindow(cfg, trace, k, k)
  {
  }

  /** A window that starts anew because the sample before was not eligible. */
  lemma EarliestAfterGap(cfg: Config, trace: seq<Obs>, k: nat)
    requires k < |trace| && Eligible(cfg, trace, k) && (k > 0 ==> !Eligible(cfg, trace, k - 1))
    ensures Earliest(cfg, trace, k, k)
  {
    hide Eligible, SameFlow, Complete;
    OneSampleWindow(cfg, trace, k);
    forall i: nat | i < k ensures !QuietWindow(cfg, trace, i, k) {
      assert i <= k - 1;
    }
  }

  /** The kept base starts a quiet window, and no quiet window ending here starts earlier. */
  lemma {:induction false} BaseIsEarliest(cfg: Config, trace: seq<Obs>, k: nat)
    requires k < |trace| && RestartsEligible(cfg, trace) && Eligible(cfg, trace, k)
    ensures var b := BaseOf(cfg, trace, k); b.Some? && Earliest(cfg, trace, b.value, k)
    decreases k
  {
    hide SameFlow, Complete, QuietWindow;
    if k == 0 || !Eligible(cfg, trace, k - 1) {
      EarliestAfterGap(cfg, trace, k);
    } else if trace[k - 1].restarted {
      OneSampleWindow(cfg, trace, k - 1);
      EarliestExtends(cfg, trace, k - 1, k - 1);
    } else {
      BaseIsEarliest(cfg, trace, k - 1);
      var b := BaseOf(cfg, trace, k - 1).value;
      WindowEligible(cfg, trace, b, k - 1);
      EarliestExtends(cfg, trace, b, k - 1);
    }
  }

  lemma WindowEligible(cfg: Config, trace: seq<Obs>, i: nat, k: nat)
    requires i <= k < |trace| && QuietWindow(cfg, trace, i, k)
    ensures Eligible(cfg, trace, i) && Eligible(cfg, trace, k)
  {
  }

  // ------------------------------------------------------------------ the earliest base decides

  predicate NoneFell(cfg: Config, a: seq<Sample>, b: seq<Sample>)
    requires Complete(cfg, a) && Complete(cfg, b)
  {
    forall i | 0 <= i < |a| :: a[i].committed <= b[i].committed
  }

  /** Inside a quiet window time goes forward and no commit counter falls. */
  lemma {:induction false} WindowIsMonotone(cfg: Config, trace: seq<Obs>, i: nat, k: nat)
    requires i <= k < |trace| && QuietWindow(cfg, trace, i, k)
    ensures Complete(cfg, trace[i].samples) && Complete(cfg, trace[k].samples)
    ensures trace[i].now <= trace[k].now && NoneFell(cfg, trace[i].samples, trace[k].samples)
    decreases k - i
  {
    WindowEligible(cfg, trace, i, k);
    if i < k {
      WindowTail(cfg, trace, i, k);
      WindowIsMonotone(cfg, trace, i + 1, k);
      WindowEligible(cfg, trace, i + 1, k);
      assert !AnyReset(cfg, trace[i + 1].samples, trace[i].samples);
      assert GapOk(trace, i + 1);
    }
  }

  lemma WindowTail(cfg: Config, trace: seq<Obs>, i: nat, k: nat)
    requires i < k < |trace| && QuietWindow(cfg, trace, i, k)
    ensures QuietWindow(cfg, trace, i + 1, k)
  {
    hide SameFlow;
    assert Eligible(cfg, trace, i) && Eligible(cfg, trace, i + 1);
    forall j: nat | i + 1 <= j <= k ensures Eligible(cfg, trace, j)
        && SameFlow(cfg, trace[i + 1].samples, trace[j].samples) {
      assert Eligible(cfg, trace, j);
      FlowsAgree(cfg, trace[i].samples, trace[i + 1].samples, trace[j].samples);
    }
  }

  lemma FlowsAgree(cfg: Config, a: seq<Sample>, b: seq<Sample>, c: seq<Sample>)
    requires Complete(cfg, a) && Complete(cfg, b) && Complete(cfg, c)
    requires SameFlow(cfg, a, b) && SameFlow(cfg, a, c)
    ensures SameFlow(cfg, b, c)
  {
  }

  /** What the tracker evaluates: the kept base alone. */
  ghost predicate Ready(cfg: Config, trace: seq<Obs>, k: nat)
    requires k < |trace|
  {
    && Eligible(cfg, trace, k)
    && var b := BaseOf(cfg, trace, k);
    && b.Some? && b.value < k && Complete(cfg, trace[b.value].samples)
    && trace[k].now - trace[b.value].now >= cfg.quiet
    && Advanced(cfg, trace[b.value].samples, trace[k].samples)
    && Accepting(cfg, trace[k].samples)
  }

  /** Keeping only the earliest base loses nothing: it decides whether any window is long enough. */
  lemma EarliestBaseDecides(cfg: Config, trace: seq<Obs>, k: nat)
    requires k < |trace| && RestartsEligible(cfg, trace)
    ensures Ready(cfg, trace, k) <==> Drained(cfg, trace, k)
  {
    hide QuietWindow, SameFlow, RestartsEligible;
    if Eligible(cfg, trace, k) {
      BaseIsEarliest(cfg, trace, k);
      var b := BaseOf(cfg, trace, k).value;
      WindowIsMonotone(cfg, trace, b, k);
      if Drained(cfg, trace, k) {
        var i: nat :| LongWindow(cfg, trace, i, k);
        WindowPart(cfg, trace, b, i, k);
        WindowIsMonotone(cfg, trace, b, i);
      }
      if Ready(cfg, trace, k) { assert LongWindow(cfg, trace, b, k); }
    }
  }

  lemma WindowPart(cfg: Config, trace: seq<Obs>, b: nat, i: nat, k: nat)
    requires b <= i <= k < |trace| && QuietWindow(cfg, trace, b, k)
    ensures QuietWindow(cfg, trace, b, i)
  {
  }

  // ------------------------------------------------------------------ observing one more sample

  /** The two traces agree on their first `n` samples. */
  ghost predicate SameUpTo(a: seq<Obs>, b: seq<Obs>, n: nat) {
    n <= |a| && n <= |b| && forall j | 0 <= j < n :: a[j].now == b[j].now && a[j].samples == b[j].samples
  }

  lemma {:induction false} GoodSame(cfg: Config, a: seq<Obs>, b: seq<Obs>, k: nat)
    requires k < |a| && k < |b| && SameUpTo(a, b, k + 1)
    ensures Good(cfg, a, k) == Good(cfg, b, k) && Eligible(cfg, a, k) == Eligible(cfg, b, k)
    decreases k
  {
    if k > 0 { GoodSame(cfg, a, b, k - 1); }
  }

  lemma {:induction false} BaseSame(cfg: Config, a: seq<Obs>, b: seq<Obs>, k: nat)
    requires k < |a| && k < |b| && SameUpTo(a, b, k + 1)
    requires forall j | 0 <= j < k :: a[j].restarted == b[j].restarted
    ensures BaseOf(cfg, a, k) == BaseOf(cfg, b, k)
    decreases k
  {
    GoodSame(cfg, a, b, k);
    if k > 0 { BaseSame(cfg, a, b, k - 1); }
  }

  /** One more sample changes nothing about the earlier ones. */
  lemma Snoc(cfg: Config, was: seq<Obs>, o: Obs)
    ensures var t := was + [o];
      && (forall j: nat | j < |was| :: Good(cfg, t, j) == Good(cfg, was, j) && Eligible(cfg, t, j) == Eligible(cfg, was, j))
      && (forall j: nat | j < |was| :: BaseOf(cfg, t, j) == BaseOf(cfg, was, j))
  {
    var t := was + [o];
    forall j: nat | j < |was|
      ensures Good(cfg, t, j) == Good(cfg, was, j) && Eligible(cfg, t, j) == Eligible(cfg, was, j)
          && BaseOf(cfg, t, j) == BaseOf(cfg, was, j)
    {
      GoodSame(cfg, t, was, j);
      BaseSame(cfg, t, was, j);
    }
  }

  /** The base kept after the whole trace, restarts included. */
  ghost function BaseAfter(cfg: Config, trace: seq<Obs>): (b: Option<nat>)
    ensures b.Some? ==> b.value < |trace|
  {
    if trace == [] then None
    else if trace[|trace| - 1].restarted then Some(|trace| - 1)
    else BaseOf(cfg, trace, |trace| - 1)
  }

  ghost function GoodSamples(cfg: Config, trace: seq<Obs>): Option<seq<Sample>> {
    if trace != [] && Good(cfg, trace, |trace| - 1) then Some(trace[|trace| - 1].samples) else None
  }

  /** Whether the next sample is good depends on the last good samples and the last time alone. */
  lemma GoodNext(cfg: Config, was: seq<Obs>, o: Obs, previous: Option<seq<Sample>>)
    requires previous == GoodSamples(cfg, was)
    ensures previous.Some? ==> Complete(cfg, previous.value)
    ensures Good(cfg, was + [o], |was|) <==>
      && Complete(cfg, o.samples)
      && (previous.Some? ==> !AnyReset(cfg, o.samples, previous.value))
      && (was != [] ==> 0.0 < o.now - was[|was| - 1].now <= MAX_SAMPLE_GAP_S)
  {
    hide AnyReset;
    Snoc(cfg, was, o);
  }

  /** The base after the next sample: kept while the flow counters match it. */
  lemma BaseNext(cfg: Config, was: seq<Obs>, o: Obs, before: Option<nat>)
    requires before == BaseAfter(cfg, was) && !o.restarted && RestartsEligible(cfg, was)
    ensures before.Some? ==> Complete(cfg, was[before.value].samples)
    ensures var t := was + [o]; var k := |was|;
      BaseAfter(cfg, t) == if !Eligible(cfg, t, k) then None
                           else if before.Some? && SameFlow(cfg, was[before.value].samples, o.samples) then before
                           else Some(k)
  {
    hide AnyReset, SameFlow, AnyPending;
    Snoc(cfg, was, o);
    if before.Some? && !was[|was| - 1].restarted {
      BaseIsEarliest(cfg, was, |was| - 1);
      WindowEligible(cfg, was, before.value, |was| - 1);
    }
  }

  /** The tracker's test on its base is the declarative verdict. */
  lemma ReadyNext(cfg: Config, was: seq<Obs>, o: Obs, before: Option<nat>)
    requires before == BaseAfter(cfg, was) && !o.restarted && RestartsEligible(cfg, was)
    requires before.Some? ==> Complete(cfg, was[before.value].samples)
    ensures var t := was + [o]; var k := |was|;
      && RestartsEligible(cfg, t)
      && (Drained(cfg, t, k) <==>
            && Eligible(cfg, t, k) && before.Some? && SameFlow(cfg, was[before.value].samples, o.samples)
            && o.now - was[before.value].now >= cfg.quiet && Advanced(cfg, was[before.value].samples, o.samples)
            && Accepting(cfg, o.samples))
  {
    hide SameFlow, Good, AnyPending, QuietWindow;
    var t := was + [o];
    Snoc(cfg, was, o);
    assert RestartsEligible(cfg, t);
    BaseNext(cfg, was, o, before);
    EarliestBaseDecides(cfg, t, |was|);
    hide Drained;
  }

  class Tracker {
    const cfg: Config
    var base: Option<seq<Sample>>
    var previous: Option<seq<Sample>>
    var since: Option<real>
    var lastTime: Option<real>
    ghost var trace: seq<Obs>

    ghost predicate Valid()
      reads this
    {
      var b := BaseAfter(cfg, trace);
      && RestartsEligible(cfg, trace)
      && base == (if b.Some? then Some(trace[b.value].samples) else None)
      && since == (if b.Some? then Some(trace[b.value].now) else None)
      && lastTime == (if trace == [] then None else Some(trace[|trace| - 1].now))
      && previous == GoodSamples(cfg, trace)
    }

    constructor (cfg: Config)
      ensures Valid() && trace == [] && this.cfg == cfg
    {
      this.cfg := cfg;
      base, previous, since, lastTime := None, None, None, None;
      trace := [];
    }

    /** One scrape of every node. The verdict is the declarative one over everything seen so far. */
    method Observe(now: real, samples: seq<Sample>) returns (drained: bool, quietElapsed: real)
      requires Valid()
      modifies this
      ensures Valid() && trace == old(trace) + [Obs(now, samples, false)]
      ensures drained <==> Drained(cfg, trace, |trace| - 1)
      ensures var b := BaseAfter(cfg, trace); quietElapsed == if b.Some? then now - trace[b.value].now else 0.0
    {
      hide BaseAfter, Good, SameFlow, AnyReset, AnyPending, Drained, RestartsEligible, Accepting, Advanced, Complete,
          QuietWindow;
      ghost var was, o, before := trace, Obs(now, samples, false), BaseAfter(cfg, trace);
      GoodNext(cfg, was, o, previous);
      BaseNext(cfg, was, o, before);
      ReadyNext(cfg, was, o, before);
      var good := Complete(cfg, samples);
      if good && previous.Some? && AnyReset(cfg, samples, previous.value) { good := false; }
      if good && lastTime.Some? && !(0.0 < now - lastTime.value <= MAX_SAMPLE_GAP_S) { good := false; }
      var eligible := good && !AnyPending(cfg, samples);
      var same := eligible && base.Some? && SameFlow(cfg, base.value, samples);
      if !same {
        base := if eligible then Some(samples) else None;
        since := if eligible then Some(now) else None;
      }
      drained := same && now - since.value >= cfg.quiet && Advanced(cfg, base.value, samples);
      if drained && !Accepting(cfg, samples) { drained := false; }
      previous := if good then Some(samples) else None;
      lastTime := Some(now);
      quietElapsed := if since.Some? then now - since.value else 0.0;
      trace := trace + [o];
    }

    /** Start a new quiet window at the last, eligible, sample. */
    method Restart(now: real, samples: seq<Sample>)
      requires Valid() && trace != [] && trace[|trace| - 1].now == now && trace[|trace| - 1].samples == samples
      requires Eligible(cfg, trace, |trace| - 1)
      modifies this
      ensures Valid() && trace == old(trace)[|old(trace)| - 1 := Obs(now, samples, true)]
    {
      base := Some(samples);
      since := Some(now);
      ghost var was := trace;
      trace := trace[|trace| - 1 := Obs(now, samples, true)];
      forall j: nat | j < |trace| ensures Eligible(cfg, trace, j) == Eligible(cfg, was, j)
          && Good(cfg, trace, j) == Good(cfg, was, j) {
        GoodSame(cfg, trace, was, j);
      }
    }
  }

  // ------------------------------------------------------------------ the attestation-live acceptance

  predicate HeightsKnown(samples: seq<Sample>) {
    forall i | 0 <= i < |samples| :: samples[i].Sample? && samples[i].height.Some?
  }

  /** The lowest executed height of the nodes. */
  function LowestExecuted(samples: seq<Sample>): (lo: nat)
    requires samples != [] && HeightsKnown(samples)
    ensures forall i | 0 <= i < |samples| :: lo <= samples[i].height.value
    ensures exists i :: 0 <= i < |samples| && lo == samples[i].height.value
  {
    var last := samples[|samples| - 1].height.value;
    if |samples| == 1 then last
    else
      var rest := LowestExecuted(samples[..|samples| - 1]);
      if last < rest then last else rest
  }

  /** The highest committed height of the nodes: executed plus queued. */
  function HighestCommitted(samples: seq<Sample>): (hi: nat)
    requires samples != [] && HeightsKnown(samples)
    ensures forall i | 0 <= i < |samples| :: samples[i].height.value + samples[i].execQueue <= hi
    ensures exists i :: 0 <= i < |samples| && hi == samples[i].height.value + samples[i].execQueue
  {
    var last := samples[|samples| - 1].height.value + samples[|samples| - 1].execQueue;
    if |samples| == 1 then last
    else
      var rest := HighestCommitted(samples[..|samples| - 1]);
      if last > rest then last else rest
  }

  /** Every block any node executed between the two scrapes holds only excused actions. */
  ghost predicate ExecutedQuietly(answers: AttestTraffic.Answers, rpcs: nat, allowed: set<string>, first: seq<Sample>,
      last: seq<Sample>)
    requires HeightsKnown(first) && HeightsKnown(last) && |first| == |last|
  {
    forall i, h: nat | 0 <= i < |first| && first[i].height.value < h <= last[i].height.value ::
      AttestTraffic.QuietHeight(answers, rpcs, allowed, h)
  }

  /** The scanned range is usable and every height in it is quiet. */
  ghost predicate QuietRange(answers: AttestTraffic.Answers, rpcs: nat, allowed: set<string>, lo: nat, hi: nat) {
    && rpcs > 0 && lo <= hi && hi - lo + 1 <= AttestTraffic.MAX_BLOCKS
    && forall h: nat | lo <= h <= hi :: AttestTraffic.QuietHeight(answers, rpcs, allowed, h)
  }

  /** Some readable height of a usable range holds an action that counts. */
  ghost predicate SomeCounted(answers: AttestTraffic.Answers, rpcs: nat, allowed: set<string>, lo: nat, hi: nat) {
    && rpcs > 0 && lo <= hi && hi - lo + 1 <= AttestTraffic.MAX_BLOCKS
    && exists h: nat :: lo <= h <= hi && !AttestTraffic.Unread(answers, rpcs, h)
        && !AttestTraffic.QuietHeight(answers, rpcs, allowed, h)
  }

  /** The scanned range covers every block executed inside the window. */
  lemma RangeCoversWindow(answers: AttestTraffic.Answers, rpcs: nat, allowed: set<string>, first: seq<Sample>,
      last: seq<Sample>)
    requires first != [] && HeightsKnown(first) && HeightsKnown(last) && |first| == |last|
    requires QuietRange(answers, rpcs, allowed, LowestExecuted(first), HighestCommitted(last))
    ensures ExecutedQuietly(answers, rpcs, allowed, first, last)
  {
    hide AttestTraffic.QuietHeight;
    forall i, h: nat | 0 <= i < |first| && first[i].height.value < h <= last[i].height.value
      ensures AttestTraffic.QuietHeight(answers, rpcs, allowed, h)
    {
      assert LowestExecuted(first) <= first[i].height.value
          && last[i].height.value + last[i].execQueue <= HighestCommitted(last);
    }
  }

  /** The window's blocks, from its first samples to the accepting ones, scan clean. */
  ghost predicate Accepts(answers: AttestTraffic.Answers, rpcs: nat, allowed: set<string>, first: seq<Sample>,
      last: seq<Sample>) {
    && first != [] && last != [] && HeightsKnown(first) && HeightsKnown(last)
    && QuietRange(answers, rpcs, allowed, LowestExecuted(first), HighestCommitted(last))
  }

  /** ... or hold an action that counts. */
  ghost predicate Restarts(answers: AttestTraffic.Answers, rpcs: nat, allowed: set<string>, first: seq<Sample>,
      last: seq<Sample>) {
    && first != [] && last != [] && HeightsKnown(first) && HeightsKnown(last)
    && SomeCounted(answers, rpcs, allowed, LowestExecuted(first), HighestCommitted(last))
  }

  method ScanBetween(answers: AttestTraffic.Answers, rpcs: nat, allowed: set<string>, first: seq<Sample>, last: seq<Sample>)
    returns (accept: bool, restart: bool)
    requires first != [] && last != []
    ensures accept <==> Accepts(answers, rpcs, allowed, first, last)
    ensures restart <==> Restarts(answers, rpcs, allowed, first, last)
    ensures accept ==> !restart
  {
    if !HeightsKnown(first) || !HeightsKnown(last) { return false, false; }
    hide AttestTraffic.QuietHeight, AttestTraffic.Unread, LowestExecuted, HighestCommitted;
    var lo, hi := LowestExecuted(first), HighestCommitted(last);
    var scan := AttestTraffic.ScanWindow(answers, rpcs, lo, hi, allowed);
    if scan.other > 0 { var h :| h in scan.otherHeights; }
    accept, restart := scan.clean, scan.other > 0;
  }

  /** The samples a trace's window began with. */
  ghost function WindowFirst(cfg: Config, trace: seq<Obs>): seq<Sample> {
    if BaseAfter(cfg, trace).Some? then trace[BaseAfter(cfg, trace).value].samples else []
  }

  /**
   Once the tracker drained: accept only if the blocks of the window scan clean. A counted action
   restarts the window at this sample; an unreadable height or body keeps it open.
   */
  method AttestWindowStep(tracker: Tracker, now: real, samples: seq<Sample>, drained: bool,
                          answers: AttestTraffic.Answers, rpcs: nat, allowed: set<string>) returns (accepted: bool)
    requires tracker.Valid() && tracker.cfg.nodes > 0 && tracker.trace != []
    requires tracker.trace[|tracker.trace| - 1] == Obs(now, samples, false)
    requires drained <==> Drained(tracker.cfg, tracker.trace, |tracker.trace| - 1)
    modifies tracker
    ensures tracker.Valid()
    ensures var first := WindowFirst(tracker.cfg, old(tracker.trace));
      && (accepted <==> drained && Accepts(answers, rpcs, allowed, first, samples))
      && tracker.trace == (if drained && Restarts(answers, rpcs, allowed, first, samples)
                           then old(tracker.trace)[|old(tracker.trace)| - 1 := Obs(now, samples, true)]
                           else old(tracker.trace))
      && (accepted ==>
            && |first| == |samples| && HeightsKnown(first) && HeightsKnown(samples)
            && ExecutedQuietly(answers, rpcs, allowed, first, samples))
  {
    accepted := false;
    if !drained { return; }
    DrainedHasBase(tracker.cfg, tracker.trace);
    hide Drained, BaseOf, RestartsEligible, Good, QuietRange, SomeCounted, LowestExecuted, HighestCommitted,
        ExecutedQuietly;
    var first := tracker.base.value;
    var restart;
    accepted, restart := ScanBetween(answers, rpcs, allowed, first, samples);
    if restart {
      tracker.Restart(now, samples);
    } else if accepted {
      RangeCoversWindow(answers, rpcs, allowed, first, samples);
    }
  }

  lemma DrainedHasBase(cfg: Config, trace: seq<Obs>)
    requires trace != [] && RestartsEligible(cfg, trace) && Drained(cfg, trace, |trace| - 1)
        && !trace[|trace| - 1].restarted
    ensures var k := |trace| - 1; var b := BaseAfter(cfg, trace);
      && Eligible(cfg, trace, k) && Complete(cfg, trace[k].samples) && b.Some? && Complete(cfg, trace[b.value].samples)
  {
    EarliestBaseDecides(cfg, trace, |trace| - 1);
  }
}
