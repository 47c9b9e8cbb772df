/**
 Attestation evidence: reading every node's state hash per checkpoint and healing holes without
 erasing evidence.
 */
module StateAttest {
  import opened Options

  type Hash = nat
  type Address = nat

  const INTERVAL: nat := 100
  const RETAIN: nat := 64

  datatype Attestation = Attestation(hash: Hash, matches: bool)

  /** One node's answer for one checkpoint. */
  datatype Read = Failed | Read(local: Hash, quorum: Option<Hash>, votes: map<Address, Attestation>)

  datatype Row = Row(height: nat, perNode: seq<Read>)

  predicate AnyFailed(per: seq<Read>) {
    exists i :: 0 <= i < |per| && per[i].Failed?
  }

  predicate AllFailed(per: seq<Read>) {
    forall i | 0 <= i < |per| :: per[i].Failed?
  }

  predicate SameHash(per: seq<Read>)
    requires !AnyFailed(per)
  {
    forall i, j | 0 <= i < |per| && 0 <= j < |per| :: per[i].local == per[j].local
  }

  predicate VotesMatch(per: seq<Read>)
    requires !AnyFailed(per)
  {
    forall i, v | 0 <= i < |per| && v in per[i].votes :: per[i].votes[v] == Attestation(per[i].local, true)
  }

  predicate QuorumsMatch(per: seq<Read>)
    requires !AnyFailed(per)
  {
    forall i | 0 <= i < |per| && per[i].quorum.Some? :: per[i].quorum.value == per[i].local
  }

  /** A read with no evidence of disagreement; only "no quorum yet" may differ. */
  predicate Clean(per: seq<Read>) {
    per != [] && !AnyFailed(per) && SameHash(per) && VotesMatch(per) && QuorumsMatch(per)
  }

  predicate AllQuorum(per: seq<Read>) {
    !AnyFailed(per) && forall i | 0 <= i < |per| :: per[i].quorum.Some?
  }

  // ------------------------------------------------------------------ the downward walk

  /** What the nodes answer, in order, for the `j`-th height of the walk. */
  type Walk = nat -> seq<Read>

  /** The walk's rows: consecutive checkpoints down from `t`, complete except possibly the last. */
  ghost predicate WalkRows(t: nat, walk: Walk, rows: seq<Row>) {
    && |rows| <= RETAIN
    && (forall j | 0 <= j < |rows| ::
          t >= INTERVAL * j + INTERVAL && rows[j] == Row(t - INTERVAL * j, walk(j)) && !AllFailed(walk(j)))
    && (forall j | 0 <= j < |rows| - 1 :: !AnyFailed(rows[j].perNode))
  }

  /** Why the walk ended. */
  ghost predicate WalkEnded(t: nat, walk: Walk, rows: seq<Row>) {
    var n := |rows|;
    || n == RETAIN || t < INTERVAL * n + INTERVAL || AllFailed(walk(n))
    || (n > 0 && AnyFailed(rows[n - 1].perNode))
  }

  method ReadRows(t: nat, walk: Walk) returns (rows: seq<Row>)
    ensures WalkRows(t, walk, rows) && WalkEnded(t, walk, rows)
  {
    rows := [];
    var h: int := t;
    while h >= INTERVAL && |rows| < RETAIN
      invariant WalkRows(t, walk, rows) && h == t - INTERVAL * |rows|
      invariant rows != [] ==> !AnyFailed(rows[|rows| - 1].perNode)
      decreases RETAIN - |rows|
    {
      var per := walk(|rows|);
      if AllFailed(per) { return; }
      rows := rows + [Row(h, per)];
      if AnyFailed(per) { return; }
      h := h - INTERVAL;
    }
  }

  /** Whether a node whose newest checkpoint is `newest` serves checkpoint `h`: its last 64 above activation. */
  predicate Serves(newest: nat, activation: nat, h: nat) {
    activation < h <= newest && newest < h + RETAIN * INTERVAL
  }

  /** Checkpoints every node must still serve. */
  function MinWindow(t: nat, activation: Option<nat>, advanced: nat): int {
    if activation.None? then 1
    else
      var span := (t - activation.value) / INTERVAL;
      var kept := RETAIN - advanced;
      var m := if kept < span then kept else span;
      if m < 1 then 1 else m
  }

  function Max(s: seq<nat>): (m: nat)
    requires s != []
    ensures forall i | 0 <= i < |s| :: s[i] <= m
    ensures m in s
  {
    if |s| == 1 then s[0]
    else
      var rest := Max(s[..|s| - 1]);
      if s[|s| - 1] > rest then s[|s| - 1] else rest
  }

  /** Checkpoints the most advanced node is past the walk's start. */
  function AdvanceOf(t: nat, after: seq<nat>): nat
    requires after != []
  {
    if Max(after) < t then 0 else (Max(after) - t) / INTERVAL
  }

  /** A walk over healthy nodes: node `i` at the `j`-th row is at a newest checkpoint between `t` and
      what it reports afterwards, and answers exactly the checkpoints it serves. */
  ghost predicate Healthy(t: nat, activation: nat, after: seq<nat>, newest: (nat, nat) -> nat, walk: Walk) {
    && (forall i | 0 <= i < |after| :: after[i] % INTERVAL == t % INTERVAL)
    && (forall j: nat, i: nat | i < |after| :: t <= newest(j, i) <= after[i])
    && (forall j: nat :: |walk(j)| == |after|)
    && (forall j: nat, i: nat | i < |after| && t >= INTERVAL * j ::
          (walk(j)[i].Failed? <==> !Serves(newest(j, i), activation, t - INTERVAL * j)))
  }

  /** No node is further ahead than the advance read after the walk. */
  lemma AdvanceBounds(t: nat, after: seq<nat>, i: nat)
    requires i < |after| && t <= after[i] && forall k | 0 <= k < |after| :: after[k] % INTERVAL == t % INTERVAL
    ensures after[i] <= t + INTERVAL * AdvanceOf(t, after)
  {
    var m := Max(after);
    var k :| 0 <= k < |after| && after[k] == m;
    assert (m - t) % INTERVAL == 0;
  }

  lemma ServedRow(t: nat, activation: nat, after: seq<nat>, newest: (nat, nat) -> nat, walk: Walk, j: nat)
    requires after != [] && INTERVAL <= t && t > activation
    requires Healthy(t, activation, after, newest, walk) && AdvanceOf(t, after) < RETAIN
    requires j < MinWindow(t, Some(activation), AdvanceOf(t, after))
    ensures t >= INTERVAL * j + INTERVAL && walk(j) != [] && !AnyFailed(walk(j))
  {
    var a := AdvanceOf(t, after);
    assert a + j < RETAIN && (j == 0 || activation + INTERVAL * j + INTERVAL <= t);
    forall i: nat | i < |after| ensures !walk(j)[i].Failed? {
      assert t <= newest(j, i) <= after[i];
      AdvanceBounds(t, after, i);
      assert Serves(newest(j, i), activation, t - INTERVAL * j);
    }
  }

  /**
   Healthy nodes are never failed for a short window: while the chain advances by fewer than 64
   checkpoints, the walk compares at least the required number of heights.
   */
  lemma HealthyWindow(t: nat, activation: nat, after: seq<nat>, newest: (nat, nat) -> nat, walk: Walk, rows: seq<Row>)
    requires after != [] && t > activation && t >= INTERVAL
    requires Healthy(t, activation, after, newest, walk) && AdvanceOf(t, after) < RETAIN
    requires WalkRows(t, walk, rows) && WalkEnded(t, walk, rows)
    ensures |rows| >= MinWindow(t, Some(activation), AdvanceOf(t, after))
    ensures forall j | 0 <= j < MinWindow(t, Some(activation), AdvanceOf(t, after)) :: !AnyFailed(rows[j].perNode)
  {
    var want := MinWindow(t, Some(activation), AdvanceOf(t, after));
    forall j: nat | j < want ensures t >= INTERVAL * j + INTERVAL && !AllFailed(walk(j)) && !AnyFailed(walk(j)) {
      ServedRow(t, activation, after, newest, walk, j);
      assert !walk(j)[0].Failed?;
    }
  }

  /** No longer window could be asked for: a row every node answers is within what the most advanced node retains. */
  lemma WindowIsTight(t: nat, activation: nat, after: seq<nat>, newest: (nat, nat) -> nat, walk: Walk, i: nat, j: nat)
    requires i < |after| && Healthy(t, activation, after, newest, walk)
    requires newest(j, i) == Max(after) && t >= INTERVAL * j && !AnyFailed(walk(j))
    ensures j < RETAIN - AdvanceOf(t, after) && INTERVAL * j < t - activation
  {
    assert t <= newest(j, i) <= after[i];
    assert !walk(j)[i].Failed?;
    assert Serves(newest(j, i), activation, t - INTERVAL * j);
  }

  /** `nodes` nodes, all `a` checkpoints past the walk's start from its first row on. */
  function SteadyAfter(t: nat, a: nat, nodes: nat): seq<nat> {
    seq(nodes, _ => t + INTERVAL * a)
  }

  predicate AnswersRow(t: nat, activation: nat, a: nat, j: nat) {
    t >= INTERVAL * j && Serves(t + INTERVAL * a, activation, t - INTERVAL * j)
  }

  function SteadyWalk(t: nat, activation: nat, a: nat, nodes: nat): Walk {
    (j: nat) =>
      seq(nodes, _ => if AnswersRow(t, activation, a, j) then Read(0, None, map[]) else Failed)
  }

  lemma SteadyIsHealthy(t: nat, activation: nat, a: nat, nodes: nat)
    requires nodes > 0
    ensures Healthy(t, activation, SteadyAfter(t, a, nodes), (_: nat, _: nat) => t + INTERVAL * a,
                    SteadyWalk(t, activation, a, nodes))
    ensures AdvanceOf(t, SteadyAfter(t, a, nodes)) == a
  {
    var after := SteadyAfter(t, a, nodes);
    assert Max(after) == t + INTERVAL * a by { assert Max(after) in after; }
  }

  /**
   No larger number could be required: while the advance is below 64, the walk over nodes that stand
   that far ahead from the first row on compares exactly the required number of heights. It compares
   one more only when the activation height is no checkpoint and the advance does not cut the walk.
   */
  lemma WindowIsReached(t: nat, activation: nat, a: nat, nodes: nat, rows: seq<Row>)
    requires nodes > 0 && t % INTERVAL == 0 && t > activation && a < RETAIN
    requires WalkRows(t, SteadyWalk(t, activation, a, nodes), rows)
    requires WalkEnded(t, SteadyWalk(t, activation, a, nodes), rows)
    ensures var span := (t - activation) / INTERVAL;
      |rows| == MinWindow(t, Some(activation), a)
        + if (t - activation) % INTERVAL != 0 && 0 < span < RETAIN - a then 1 else 0
  {
    hide SteadyWalk, AllFailed, AnyFailed, MinWindow;
    var walk, n := SteadyWalk(t, activation, a, nodes), |rows|;
    SteadyRow(t, activation, a, nodes, n);
    if n > 0 {
      SteadyRow(t, activation, a, nodes, n - 1);
      assert rows[n - 1] == Row(t - INTERVAL * (n - 1), walk(n - 1)) && !AllFailed(walk(n - 1));
    }
    RowsServed(t, activation, a, n);
  }

  /** Every node answers row `j` or none does. */
  lemma SteadyRow(t: nat, activation: nat, a: nat, nodes: nat, j: nat)
    requires nodes > 0
    ensures var per := SteadyWalk(t, activation, a, nodes)(j); AnyFailed(per) <==> AllFailed(per)
    ensures AllFailed(SteadyWalk(t, activation, a, nodes)(j)) <==> !AnswersRow(t, activation, a, j)
  {
    var per := SteadyWalk(t, activation, a, nodes)(j);
    assert |per| == nodes && per[0] == per[nodes - 1];
  }

  /** How many rows are answered before the first that is not. */
  lemma RowsServed(t: nat, activation: nat, a: nat, n: nat)
    requires t % INTERVAL == 0 && t > activation && a < RETAIN
    requires n > 0 ==> AnswersRow(t, activation, a, n - 1)
    requires n == RETAIN || t < INTERVAL * n + INTERVAL || !AnswersRow(t, activation, a, n)
    ensures var span := (t - activation) / INTERVAL;
      n == MinWindow(t, Some(activation), a)
        + if (t - activation) % INTERVAL != 0 && 0 < span < RETAIN - a then 1 else 0
  {
  }

  // ------------------------------------------------------------------ healing holes

  /** A common height below the newest where some node reports no quorum. */
  predicate Hole(row: Row, t: nat) {
    row.height != t && !AnyFailed(row.perNode) && !AllQuorum(row.perNode)
  }

  /** What the nodes answer for height `h` on retry `k`, and whether the round ended in time. */
  datatype Retry = Retry(per: seq<Read>, inTime: bool)

  type Retries = (nat, nat) -> Retry

  /** A node that fails a retry keeps its earlier answer. */
  function Merged(per: seq<Read>, before: seq<Read>): (r: seq<Read>)
    requires |per| == |before|
    ensures |r| == |before| && forall i | 0 <= i < |r| :: r[i] == if per[i].Failed? then before[i] else per[i]
  {
    seq(|before|, i requires 0 <= i < |before| => if per[i].Failed? then before[i] else per[i])
  }

  /** A hole is open, healed by a full read, or closed by evidence. */
  datatype HealState = Open(per: seq<Read>) | Healed(per: seq<Read>) | Evidence(per: seq<Read>)

  function HealStep(s: HealState, r: Retry): HealState
    requires |r.per| == |s.per|
  {
    if !s.Open? then s
    else
      var merged := Merged(r.per, s.per);
      if !Clean(merged) then Evidence(merged)
      else if AllQuorum(r.per) && r.inTime then Healed(r.per)
      else s
  }

  /** The hole after `n` retries, starting from the walk's read. */
  function Heal(before: seq<Read>, h: nat, retries: Retries, n: nat): (s: HealState)
    requires forall k: nat :: |retries(h, k).per| == |before|
    ensures |s.per| == |before|
  {
    if n == 0 then (if Clean(before) then Open(before) else Evidence(before))
    else HealStep(Heal(before, h, retries, n - 1), retries(h, n - 1))
  }

  /** An open hole still shows the walk's own read. */
  lemma {:induction false} OpenIsUnchanged(before: seq<Read>, h: nat, retries: Retries, n: nat)
    requires forall k: nat :: |retries(h, k).per| == |before|
    ensures Heal(before, h, retries, n).Open? ==> Heal(before, h, retries, n) == Open(before) && Clean(before)
  {
    if n > 0 { OpenIsUnchanged(before, h, retries, n - 1); }
  }

  lemma {:induction false} ClosedStays(before: seq<Read>, h: nat, retries: Retries, k: nat, n: nat)
    requires forall k: nat :: |retries(h, k).per| == |before|
    requires k <= n && !Heal(before, h, retries, k).Open?
    ensures Heal(before, h, retries, n) == Heal(before, h, retries, k)
  {
    if k < n { ClosedStays(before, h, retries, k, n - 1); }
  }

  /** A read that is not clean after merging closes the hole with that evidence for good. */
  lemma MismatchIsFinal(before: seq<Read>, h: nat, retries: Retries, n: nat, k: nat)
    requires forall k: nat :: |retries(h, k).per| == |before|
    requires k < n && Heal(before, h, retries, k).Open? && !Clean(Merged(retries(h, k).per, before))
    ensures Heal(before, h, retries, n) == Evidence(Merged(retries(h, k).per, before))
  {
    hide Clean, AllQuorum;
    OpenIsUnchanged(before, h, retries, k);
    ClosedStays(before, h, retries, k + 1, n);
  }

  /**
   Healing never erases evidence, for every sequence of replies. No failed answer enters the row;
   the row is clean exactly when no evidence closed it; and it changes to a clean row only through
   one read in which every node answered with a quorum.
   */
  lemma {:induction false} HealingKeepsEvidence(before: seq<Read>, h: nat, retries: Retries, n: nat)
    requires !AnyFailed(before) && forall k: nat :: |retries(h, k).per| == |before|
    ensures var s := Heal(before, h, retries, n);
      && !AnyFailed(s.per)
      && (Clean(s.per) <==> !s.Evidence?)
      && (s.Healed? ==> exists k: nat :: k < n && s.per == retries(h, k).per && AllQuorum(s.per) && retries(h, k).inTime)
      && (s.Open? ==> s.per == before)
  {
    if n > 0 {
      HealingKeepsEvidence(before, h, retries, n - 1);
      var r, s := retries(h, n - 1), Heal(before, h, retries, n - 1);
      if s.Open? && AllQuorum(r.per) { assert Merged(r.per, s.per) == r.per; }
    }
  }

  /** A retry that ended in time, with a clean answer and a quorum from every node. */
  predicate FullRead(r: Retry) {
    r.inTime && Clean(r.per) && forall i | 0 <= i < |r.per| :: r.per[i].Read? && r.per[i].quorum.Some?
  }

  /** Neither the walk's read nor any retry up to `k`, each merged with the walk's, shows evidence. */
  ghost predicate CleanThrough(before: seq<Read>, h: nat, retries: Retries, k: nat)
    requires forall k: nat :: |retries(h, k).per| == |before|
  {
    Clean(before) && forall j: nat | j <= k :: Clean(Merged(retries(h, j).per, before))
  }

  /** Retry `k` may heal the hole. */
  ghost predicate HealsAt(before: seq<Read>, h: nat, retries: Retries, k: nat)
    requires forall k: nat :: |retries(h, k).per| == |before|
  {
    FullRead(retries(h, k)) && CleanThrough(before, h, retries, k)
  }

  /** A read with a quorum everywhere replaces the whole row. */
  lemma QuorumReadReplaces(r: Retry, before: seq<Read>)
    requires |r.per| == |before| && AllQuorum(r.per)
    ensures Merged(r.per, before) == r.per
    ensures FullRead(r) <==> r.inTime && Clean(r.per)
  {
  }

  lemma {:induction false} OpenWhileClean(before: seq<Read>, h: nat, retries: Retries, n: nat)
    requires Clean(before) && forall k: nat :: |retries(h, k).per| == |before|
    requires forall j: nat | j < n :: Clean(Merged(retries(h, j).per, before)) && !FullRead(retries(h, j))
    ensures Heal(before, h, retries, n) == Open(before)
  {
    if n > 0 {
      OpenWhileClean(before, h, retries, n - 1);
      var r := retries(h, n - 1);
      if AllQuorum(r.per) { QuorumReadReplaces(r, before); }
    }
  }

  /** The first retry that may heal the hole does, and later ones change nothing. */
  lemma FirstFullReadHeals(before: seq<Read>, h: nat, retries: Retries, n: nat, k: nat)
    requires forall k: nat :: |retries(h, k).per| == |before|
    requires k < n && HealsAt(before, h, retries, k) && forall j: nat | j < k :: !HealsAt(before, h, retries, j)
    ensures Heal(before, h, retries, n) == Healed(retries(h, k).per)
  {
    forall j: nat | j < k ensures Clean(Merged(retries(h, j).per, before)) && !FullRead(retries(h, j)) {
      assert CleanThrough(before, h, retries, j) && !HealsAt(before, h, retries, j);
    }
    OpenWhileClean(before, h, retries, k);
    assert Merged(retries(h, k).per, before) == retries(h, k).per;
    ClosedStays(before, h, retries, k + 1, n);
  }

  /** A hole is healed within `n` retries if and only if one of them is a full read before any evidence. */
  lemma {:induction false} HealedIff(before: seq<Read>, h: nat, retries: Retries, n: nat)
    requires forall k: nat :: |retries(h, k).per| == |before|
    ensures Heal(before, h, retries, n).Healed? <==> exists k: nat :: k < n && HealsAt(before, h, retries, k)
  {
    if k: nat :| k < n && HealsAt(before, h, retries, k) {
      var first := FirstHealing(before, h, retries, k);
      FirstFullReadHeals(before, h, retries, n, first);
    } else if Clean(before) {
      NoFullReadNoHealing(before, h, retries, n);
    } else {
      ClosedStays(before, h, retries, 0, n);
    }
  }

  lemma {:induction false} FirstHealing(before: seq<Read>, h: nat, retries: Retries, k: nat) returns (first: nat)
    requires forall k: nat :: |retries(h, k).per| == |before|
    requires HealsAt(before, h, retries, k)
    ensures first <= k && HealsAt(before, h, retries, first)
    ensures forall j: nat | j < first :: !HealsAt(before, h, retries, j)
  {
    if j: nat :| j < k && HealsAt(before, h, retries, j) {
      first := FirstHealing(before, h, retries, j);
    } else {
      first := k;
    }
  }

  lemma {:induction false} NoFullReadNoHealing(before: seq<Read>, h: nat, retries: Retries, n: nat)
    requires Clean(before) && forall k: nat :: |retries(h, k).per| == |before|
    requires forall k: nat | k < n :: !HealsAt(before, h, retries, k)
    ensures var s := Heal(before, h, retries, n);
      && !s.Healed?
      && (s.Open? ==> forall j: nat | j < n :: Clean(Merged(retries(h, j).per, before)))
  {
    hide Clean, AllQuorum, FullRead;
    if n > 0 {
      NoFullReadNoHealing(before, h, retries, n - 1);
      OpenIsUnchanged(before, h, retries, n - 1);
      var r := retries(h, n - 1);
      assert !HealsAt(before, h, retries, n - 1);
      if Heal(before, h, retries, n - 1).Open? && AllQuorum(r.per) && r.inTime && Clean(Merged(r.per, before)) {
        QuorumReadReplaces(r, before);
      }
    }
  }

  /**
   How a hole ends: as the first full read before any evidence, which is clean and no hole, if
   there is one in the budget; otherwise it still is a hole or it shows evidence.
   */
  ghost predicate EndsHealed(row: Row, t: nat, retries: Retries, n: nat, now: Row)
    requires forall k: nat :: |retries(row.height, k).per| == |row.perNode|
  {
    && now.height == row.height
    && (forall k: nat | k < n && HealsAt(row.perNode, row.height, retries, k)
                        && (forall j: nat | j < k :: !HealsAt(row.perNode, row.height, retries, j)) ::
          now.perNode == retries(row.height, k).per)
    && (!Hole(now, t) && Clean(now.perNode) <==> exists k: nat :: k < n && HealsAt(row.perNode, row.height, retries, k))
  }

  lemma HoleEnds(row: Row, t: nat, retries: Retries, n: nat)
    requires Hole(row, t) && forall k: nat :: |retries(row.height, k).per| == |row.perNode|
    ensures EndsHealed(row, t, retries, n, HealedRow(row, t, retries, n))
  {
    hide HealsAt, Clean, Heal;
    var before, h, now := row.perNode, row.height, HealedRow(row, t, retries, n);
    forall k: nat | k < n && HealsAt(before, h, retries, k) && (forall j: nat | j < k :: !HealsAt(before, h, retries, j))
      ensures now.perNode == retries(h, k).per
    {
      FirstFullReadHeals(before, h, retries, n, k);
    }
    HealedIff(before, h, retries, n);
    HealingKeepsEvidence(before, h, retries, n);
  }

  /** The rows after healing: every hole as its own retries leave it, every other row untouched. */
  ghost predicate HealedRows(rows: seq<Row>, t: nat, retries: Retries, n: nat, out: seq<Row>)
    requires Answering(rows, retries)
  {
    && |out| == |rows|
    && forall j | 0 <= j < |rows| :: out[j] == HealedRow(rows[j], t, retries, n)
  }

  /** Every retry asks the nodes of the row. */
  ghost predicate Answering(rows: seq<Row>, retries: Retries) {
    forall j, k: nat | 0 <= j < |rows| :: |retries(rows[j].height, k).per| == |rows[j].perNode|
  }

  ghost function HealedRow(row: Row, t: nat, retries: Retries, n: nat): Row
    requires forall k: nat :: |retries(row.height, k).per| == |row.perNode|
  {
    if Hole(row, t) then Row(row.height, Heal(row.perNode, row.height, retries, n).per) else row
  }

  /** Where a row stands after `n` rounds: its contents, and whether it is still open. */
  ghost predicate RowState(row: Row, t: nat, retries: Retries, n: nat, now: Row, open: bool)
    requires forall k: nat :: |retries(row.height, k).per| == |row.perNode|
  {
    now == HealedRow(row, t, retries, n) && (open <==> Hole(row, t) && Heal(row.perNode, row.height, retries, n).Open?)
  }

  lemma RowStep(row: Row, t: nat, retries: Retries, n: nat, now: Row)
    requires forall k: nat :: |retries(row.height, k).per| == |row.perNode|
    requires RowState(row, t, retries, n, now, true)
    ensures |now.perNode| == |row.perNode| && now.height == row.height
    ensures var s := HealStep(Open(now.perNode), retries(row.height, n));
      RowState(row, t, retries, n + 1, Row(now.height, s.per), s.Open?)
  {
  }

  lemma RowClosed(row: Row, t: nat, retries: Retries, n: nat, m: nat, now: Row)
    requires forall k: nat :: |retries(row.height, k).per| == |row.perNode|
    requires n <= m && RowState(row, t, retries, n, now, false)
    ensures RowState(row, t, retries, m, now, false)
  {
    if Hole(row, t) { ClosedStays(row.perNode, row.height, retries, n, m); }
  }

  /** One round over the open holes. */
  method HealRound(rows: seq<Row>, t: nat, retries: Retries, n: nat, before: seq<Row>, open: seq<bool>)
    returns (after: seq<Row>, next: seq<bool>)
    requires Answering(rows, retries) && |before| == |rows| == |open|
    requires forall j | 0 <= j < |rows| :: RowState(rows[j], t, retries, n, before[j], open[j])
    ensures |after| == |rows| == |next|
    ensures forall j | 0 <= j < |rows| :: RowState(rows[j], t, retries, n + 1, after[j], next[j])
  {
    hide RowState, HealStep;
    after, next := [], [];
    for j := 0 to |rows|
      invariant |after| == |next| == j
      invariant forall i | 0 <= i < j :: RowState(rows[i], t, retries, n + 1, after[i], next[i])
    {
      if open[j] {
        RowStep(rows[j], t, retries, n, before[j]);
        var s := HealStep(Open(before[j].perNode), retries(rows[j].height, n));
        after, next := after + [Row(before[j].height, s.per)], next + [s.Open?];
      } else {
        RowClosed(rows[j], t, retries, n, n + 1, before[j]);
        after, next := after + [before[j]], next + [false];
      }
    }
  }

  /** Retry the open holes until none is left or the budget is spent. */
  method HealHoles(rows: seq<Row>, t: nat, retries: Retries, budget: nat) returns (out: seq<Row>)
    requires Answering(rows, retries)
    ensures HealedRows(rows, t, retries, budget, out)
    ensures forall j | 0 <= j < |rows| && Hole(rows[j], t) :: EndsHealed(rows[j], t, retries, budget, out[j])
  {
    out := rows;
    var open := seq(|rows|, j requires 0 <= j < |rows| => Hole(rows[j], t) && Clean(rows[j].perNode));
    var n := 0;
    assert forall j | 0 <= j < |rows| :: RowState(rows[j], t, retries, 0, out[j], open[j]);
    hide RowState;
    while n < budget && true in open
      invariant n <= budget && |out| == |rows| == |open|
      invariant forall j | 0 <= j < |rows| :: RowState(rows[j], t, retries, n, out[j], open[j])
    {
      out, open := HealRound(rows, t, retries, n, out, open);
      n := n + 1;
    }
    forall j | 0 <= j < |rows| ensures out[j] == HealedRow(rows[j], t, retries, budget) {
      if n < budget {
        assert !open[j];
        RowClosed(rows[j], t, retries, n, budget, out[j]);
      }
      RowContents(rows[j], t, retries, budget, out[j], open[j]);
    }
    forall j | 0 <= j < |rows| && Hole(rows[j], t) ensures EndsHealed(rows[j], t, retries, budget, out[j]) {
      HoleEnds(rows[j], t, retries, budget);
    }
  }

  lemma RowContents(row: Row, t: nat, retries: Retries, n: nat, now: Row, open: bool)
    requires forall k: nat :: |retries(row.height, k).per| == |row.perNode|
    requires RowState(row, t, retries, n, now, open)
    ensures now == HealedRow(row, t, retries, n)
  {
  }
}
